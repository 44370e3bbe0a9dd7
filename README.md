# Org chart: forest builder, connectors, selection and record schema

This project models the core of an organisational-chart web component and
its position record, and proves what the code does with any list of
positions.

- **`buildTree`** turns a flat list of positions into a forest in two passes.
  The first pass fills a `Map` from `id` to a fresh node with an empty
  `children` array. The second pass pushes each record's node onto its
  parent's `children` when `parentId` is truthy and is a key of the map,
  and onto `roots` otherwise. The forest is modelled as an arena. Object
  `k` is the node allocated for record `k`, and `children[k]` is a sequence
  of object numbers. `OrgChart.BuildTree` is an imperative method with the
  source's two loops over a map and an array of children lists. It is
  proved equal to the functional specification `OrgChart.Build`, and every
  property below is proved about `Build`.
- **`renderNode`** draws a node and its connectors, then recurses into its
  children one level deeper. It is modelled as `OrgChartView.Render` over
  the forest. The JavaScript call stack is a `fuel` bound, and running out
  of it is `None`, the thrown error.
- **The connector rule** is modelled as a function of a node's child count.
  It decides the stem down, the bar across with its `50/n` percent insets,
  and centred or spread-out children.
- **The selection state** (`selectedNodeId`) and its click toggle are
  modelled as a class with one field.
- **The component** shows the empty state for zero records and the drawn
  roots otherwise.
- **Crashes.** `renderNode` keeps no visited set. A reference cycle reachable
  from a root therefore overflows the stack. With unique ids that cannot
  happen: every node under a root has a parent chain of distinct records
  up to it, so a stack one deeper than the number of records always draws
  the chart. Also with unique ids, a record whose parent chain never
  reaches a root record is neither a root nor a child of a record whose chain does
  (`OrgChartDepth.CycleRecordsHidden`), so it is silently left out, with
  no error. With a repeated id one surviving node is pushed twice, and it
  can close a cycle under a root that crashes the page.
- **`orgNodeSchema` and `insertOrgNodeSchema`** are validators over a
  decoded JSON object. They return the typed record or the issues in
  field order: `id`, `name`, `title`, `parentId`.

Files:

| file | contents |
|---|---|
| `wrappers.dfy` | `Option` and `Result` |
| `schema.dfy` | the record, the two schemas and their lemmas |
| `org_chart.dfy` | the forest builder and its lemmas |
| `org_chart_view.dfy` | connectors, selection, rendering and the page |
| `org_chart_sample.dfy` | the eleven-position sample chart of the example page |
| `org_chart_depth.dfy` | when the page can and cannot crash: unique ids against a repeated id |

The code raises no error on self-parented, cyclic or repeated ids and
computes no coordinates, so neither does the model:

- A self-parented record becomes its own child.
- A repeated id overwrites the earlier map entry.
- Boxes are placed by CSS.

One might expect the earlier of two records with the same id to survive
under a stale reference. It never does: both records push the surviving
node (`OrgChart.DuplicateIdOverwrites`).

The position record itself (`id`, `name`, `title` and an optional
`parentId`) is the datatype `Schema.OrgNode`.

## Model

| member | source | states |
|---|---|---|
| OrgChart.Truthy | client/src/components/OrgChart.tsx:32 | JavaScript truthiness of `node.parentId`: present and not the empty string |
| OrgChart.IdMap | client/src/components/OrgChart.tsx:22-24 | the map the first loop fills, one `set` per record in input order |
| OrgChart.Survivor | client/src/components/OrgChart.tsx:30 | the object `nodeMap.get(node.id)` yields for a record: the map's entry for its id |
| OrgChart.ParentOf | client/src/components/OrgChart.tsx:32-33 | the parent object of a record: the map's entry for its `parentId` when that is truthy and a key, and none otherwise |
| OrgChart.RootsUpTo | client/src/components/OrgChart.tsx:29-36 | `roots` after the first `k` records: each record without a parent object pushes its survivor |
| OrgChart.ChildrenUpTo | client/src/components/OrgChart.tsx:29-36 | one object's `children` after the first `k` records: each record whose parent object it is pushes its survivor |
| OrgChart.Build | client/src/components/OrgChart.tsx:18-40 | the forest `buildTree` returns: the records, each object's `children` and the `roots` after all records |
| OrgChart.BuildTree | client/src/components/OrgChart.tsx:18-40 | the two-pass method returns exactly the forest `Build(nodes)`, and every object number in it names an allocated node |
| OrgChart.InitializeNodes | client/src/components/OrgChart.tsx:19-24 | the first loop leaves the map equal to `IdMap(nodes)` and allocates one node per record, each with empty `children` |
| OrgChart.LinkNodes | client/src/components/OrgChart.tsx:27-37 | the second loop leaves `roots` and every `children` array equal to the specification's lists after all records |
| OrgChart.IdMapIsLastOccurrence | client/src/components/OrgChart.tsx:22-24 | the map is keyed by exactly the input's ids, and each id maps to the last record carrying it (a later `set` overwrites) |
| OrgChart.IdMapKeys | client/src/components/OrgChart.tsx:22-24 | the map's keys are exactly the set of ids in the input |
| OrgChart.IdMapValues | client/src/components/OrgChart.tsx:22-24 | each key maps to a record with that id, and no later record has that id |
| OrgChart.BuildWellFormed | client/src/components/OrgChart.tsx:18-40 | one node per record carrying that record, and every root and child is an allocated node |
| OrgChart.EmptyInputEmptyForest | client/src/components/OrgChart.tsx:18-40 | empty input gives no nodes and empty `roots` |
| OrgChart.RootRule | client/src/components/OrgChart.tsx:32-36 | a record goes to `roots` exactly when its `parentId` is absent, empty, or names no id of the input (an orphan is not an error); otherwise it goes under the last record with the named id |
| OrgChart.SurvivorIsLastWithId | client/src/components/OrgChart.tsx:30 | the node pushed for a record is the node of the last record with the same id, never an earlier one |
| OrgChart.OccurrencesOfBuild | client/src/components/OrgChart.tsx:22-37 | counting over `roots` and all `children`, an object occurs once per record with its id if it is the last record with that id, and not at all otherwise |
| OrgChart.ExactlyOnce | client/src/components/OrgChart.tsx:22-37 | with unique ids, every record's node occurs exactly once across `roots` and all `children`, and no other object occurs |
| OrgChart.RootsAreRootRecordsInOrder | client/src/components/OrgChart.tsx:29-37 | with unique ids, `roots` holds exactly the root records (falsy or dangling `parentId`), in strictly increasing input order |
| OrgChart.ChildrenAreNamingRecordsInOrder | client/src/components/OrgChart.tsx:29-37 | with unique ids, a node's `children` holds exactly the records whose truthy `parentId` equals its id, in strictly increasing input order |
| OrgChart.DuplicateIdOverwrites | client/src/components/OrgChart.tsx:23-33 | with two records sharing an id, the earlier record's node appears nowhere, and the surviving node carries the last record's data and appears at least twice |
| OrgChart.SelfParentIsOwnChild | client/src/components/OrgChart.tsx:32-33 | a record whose truthy `parentId` is its own id puts its node into that node's own `children` |
| OrgChart.SelfParentNotRoot | client/src/components/OrgChart.tsx:32-35 | with unique ids, a self-parented record is its own child, is not in `roots`, and no other node lists it |
| OrgChartView.ConnectorFor | client/src/components/OrgChart.tsx:43-74 | stem iff there is at least one child; bar iff more than one; a children row iff there are children, centred iff exactly one |
| OrgChartView.BarSpansChildCentres | client/src/components/OrgChart.tsx:64-69 | for `n > 1` both insets are equal, inset times `2n` is 100, and the bar runs from the centre of the first equal slot to the centre of the last |
| OrgChartView.Toggle | client/src/components/OrgChart.tsx:54 | a click selects the node unless it is already selected, and clears the selection when it is |
| OrgChartView.ToggleTwice | client/src/components/OrgChart.tsx:54 | two clicks on one node restore a `null` or same-node selection, and clear a selection of another node |
| OrgChartView.ClickElsewhereMoves | client/src/components/OrgChart.tsx:54 | clicking another node moves the selection to it, and clicking it again clears it |
| OrgChartView.Highlighted | client/src/components/OrgChart.tsx:53 | the highlight test `selectedNodeId === node.id`, shared by the selection state and the drawing |
| OrgChartView.Selection.IsSelected | client/src/components/OrgChart.tsx:53 | whether the node with this id is drawn highlighted under the current selection |
| OrgChartView.Selection.constructor | client/src/components/OrgChart.tsx:15 | the selection starts as `null` |
| OrgChartView.Selection.Click | client/src/components/OrgChart.tsx:54 | the new selection is the toggle of the old one, the clicked node's highlight flips, and no other node is highlighted |
| OrgChartView.Render | client/src/components/OrgChart.tsx:42-87 | a drawn node shows its record at its level, is highlighted iff its id is the selected id, gets the connector for its child count, and draws each child, in `children` order, at `level + 1` |
| OrgChartView.RenderAll | client/src/components/OrgChart.tsx:75-81 | a drawn row holds one drawing per object, in order, each of the object's record at the row's level |
| OrgChartView.RenderAllPointwise | client/src/components/OrgChart.tsx:75-81 | a row throws exactly when one of its nodes throws, and otherwise element `j` is the drawing of object `j` |
| OrgChartView.RowSucceeds | client/src/components/OrgChart.tsx:75-81 | a row whose every node is drawn is drawn |
| OrgChartView.RowElements | client/src/components/OrgChart.tsx:75-81 | a drawn row has one entry per object, and entry `j` is the drawing of object `j` |
| OrgChartView.RowFailsAt | client/src/components/OrgChart.tsx:75-81 | a row in which any one node throws throws as a whole |
| OrgChartView.ClosedNeverRenders | client/src/components/OrgChart.tsx:42-87 | for any stack depth, no node of a set where every node has a child in the set can be drawn: a reference cycle always exhausts the stack |
| OrgChartView.SelfChildNeverRenders | client/src/components/OrgChart.tsx:75-79 | a node listed among its own children never renders |
| OrgChartView.SelfParentedRecordNeverRenders | client/src/components/OrgChart.tsx:32-33 | the node that a self-parented record leaves in the built forest never renders |
| OrgChartView.RankedRenders | client/src/components/OrgChart.tsx:42-87 | given a partial rank on nodes whose ranked nodes have only ranked children of smaller rank, a ranked node renders once the stack is deeper than its rank |
| OrgChartView.FuelIrrelevant | client/src/components/OrgChart.tsx:42-87 | on such a forest the drawing is the same for every sufficient stack depth |
| OrgChartView.SelectionOnlyHighlights | client/src/components/OrgChart.tsx:42-87 | for any two selections, a node is drawn under one exactly when it is drawn under the other |
| OrgChartView.RowSelectionOnlyHighlights | client/src/components/OrgChart.tsx:75-81 | for any two selections, a row is drawn under one exactly when it is drawn under the other |
| OrgChartView.ClickFlipsHighlight | client/src/components/OrgChart.tsx:53-54 | after a click on a drawn node it is still drawn, and its drawn highlight is the opposite of before |
| OrgChartView.Page | client/src/components/OrgChart.tsx:89-108 | the empty state is shown iff there are zero records; a chart shows the roots in order at level 0 |
| OrgChartView.RankedPageRenders | client/src/components/OrgChart.tsx:89-108 | for non-empty input whose roots are all ranked below the stack depth, the chart is shown |
| OrgChartView.MutualParentsDrawBlankChart | client/src/components/OrgChart.tsx:89-108 | two records naming each other as parent give no roots and a blank chart, not the empty state |
| OrgChartSample.SampleUniqueIds | client/src/components/examples/OrgChart.tsx:5-17 | the sample's ids are pairwise distinct |
| OrgChartSample.SampleRoots | client/src/components/examples/OrgChart.tsx:5-17 | the sample's only root is record '1' |
| OrgChartSample.SampleChildrenOf | client/src/components/examples/OrgChart.tsx:5-17 | each sample node's children are those of the example page: '1':['2','3'], '2':['4','5'], '3':['6'], '4':['7','8'], '5':['9'], '6':['10','11'], the rest none |
| OrgChartSample.SampleForest | client/src/components/examples/OrgChart.tsx:5-17 | `buildTree` on the sample is that whole forest |
| OrgChartSample.SampleRanked | client/src/components/examples/OrgChart.tsx:5-17 | every sample node is ranked, from 3 at the CEO down to 0 at the leaves, and each child's rank is below its parent's |
| OrgChartSample.SampleDrawn | client/src/components/examples/OrgChart.tsx:5-17 | four stack frames draw the sample as one tree: '1' at level 0, highlighted iff selected, with a two-child connector |
| OrgChartSample.SamplePathologistRow | client/src/components/examples/OrgChart.tsx:8-11 | the 'Pathologist' box is at level 1 and has one child, a stem and a centred row without a bar |
| OrgChartDepth.DepthUnique | client/src/components/OrgChart.tsx:29-36 | following `parentId` links from a record reaches a root record after at most one number of steps |
| OrgChartDepth.Up | client/src/components/OrgChart.tsx:29-36 | `i` steps up the parent chain of a record at depth `d` is a record at depth `d - i` |
| OrgChartDepth.DepthBound | client/src/components/OrgChart.tsx:22-36 | the depth of a record is less than the number of records, because its parent chain has distinct records |
| OrgChartDepth.DepthWithin | client/src/components/OrgChart.tsx:29-36 | a depth found within `fuel` parent steps is at most `fuel` and is the record's depth |
| OrgChartDepth.DepthWithinFinds | client/src/components/OrgChart.tsx:29-36 | a record at depth `d` has its depth found within any `fuel >= d` |
| OrgChartDepth.UniqueIdsRanked | client/src/components/OrgChart.tsx:22-37 | with unique ids, ranking each record by the number of records minus its depth makes each child of a ranked node ranked and lower |
| OrgChartDepth.ChildRanked | client/src/components/OrgChart.tsx:29-33 | with unique ids, every child of a ranked node is ranked, with a lower rank |
| OrgChartDepth.UniqueIdsRootsRanked | client/src/components/OrgChart.tsx:29-36 | with unique ids, every root is at depth 0 and gets the highest rank, the number of records |
| OrgChartDepth.ReachingRecordsClosed | client/src/components/OrgChart.tsx:29-36 | with unique ids, every root's parent chain reaches a root record, and so does that of every child of a record whose chain does |
| OrgChartDepth.CycleRecordsHidden | client/src/components/OrgChart.tsx:29-36 | with unique ids, a record whose parent chain never reaches a root record is not in `roots` and is not a child of any record whose chain does |
| OrgChartDepth.UniqueIdsNeverCrash | client/src/components/OrgChart.tsx:18-108 | with unique ids, a stack deeper than the number of records never crashes the page, and every such depth gives the same page |
| OrgChartDepth.RepeatedForest | client/src/components/OrgChart.tsx:22-36 | records `a`, `b` under `a`, and a second `a` under `b` give one root, the surviving `a`, with `b` under it and it under `b` |
| OrgChartDepth.DuplicateIdCanCrash | client/src/components/OrgChart.tsx:18-108 | that input crashes the page at every stack depth |
| Schema.ToObject | shared/schema.ts:21-26 | the JSON object of a record: its `id`, `name` and `title`, and `parentId` only when present |
| Schema.OmitId | shared/schema.ts:35 | the insert record of a record: the same fields without `id` |
| Schema.RequiredString | shared/schema.ts:29-31 | a required string field is accepted iff present and a string (non-empty when a minimum is given), giving its value; otherwise there is one issue at that key |
| Schema.OptionalString | shared/schema.ts:32 | an optional string field is accepted iff absent or a string, giving `None` or the value; otherwise there is one not-a-string issue |
| Schema.ParseOrgNode | shared/schema.ts:28-33 | an accepted record has non-empty name and title; a refusal carries at least one issue |
| Schema.ParseInsertOrgNode | shared/schema.ts:35 | an accepted insert record has non-empty name and title; a refusal carries at least one issue |
| Schema.ParseAcceptsExactlyConforming | shared/schema.ts:21-33 | the record schema accepts exactly the objects with string `id`, non-empty string `name` and `title`, and `parentId` absent or a string, and reads the record off those fields |
| Schema.EmptyNameOrTitleRejected | shared/schema.ts:30-31 | an empty name or title is refused with "Name is required" or "Title is required" |
| Schema.ParentIdIsOptional | shared/schema.ts:25-32 | without `parentId` a conforming object is accepted with no parent; with it, acceptance is exactly its being a string |
| Schema.RoundTrip | shared/schema.ts:21-33 | validating the JSON object of a valid record gives that record back |
| Schema.ParseKeepsExactlyTheRecordFields | shared/schema.ts:21-33 | the verdict depends only on the four record keys, and an accepted record encodes back to exactly those keys of the object |
| Schema.InsertSchemaIgnoresId | shared/schema.ts:35 | the insert schema gives the same verdict with or without an `id` key |
| Schema.InsertSchemaOmitsId | shared/schema.ts:35 | for any string id, the insert schema accepts the object iff the record schema accepts it with that id, with the same issues, and the insert value is the record minus its id |
| Schema.SameFieldsSameVerdict | shared/schema.ts:35 | two objects agreeing on `name`, `title` and `parentId` get the same insert verdict |

## Left out

- Box placement, gaps and line thickness: CSS flexbox and Tailwind classes decide them in the browser. The code computes no coordinates.
- `OrgChartView.BarSpansChildCentres`: the equal-slot geometry is an idealisation that the code does not produce. The code insets the bar by `50/n` percent of its own box and never aligns it with the child risers. The `gap-8` between children moves their centres inward, and the bar's `w-full` box is as wide as the node's column, not the children row, so the ends and the centres need not meet even for equally wide children.
- The `50/n` inset is a JavaScript floating-point division printed into a CSS string. The model uses exact reals.
- `OrgChartView.Render`: JavaScript has no fuel. The stack depth at which a real browser throws is not modelled; it is a parameter. `OrgChartView.FuelIrrelevant` shows that on acyclic input the drawing does not depend on it.
- React state scheduling, re-rendering and `key` props, including the duplicate `key` warnings that repeated ids cause. The selection is a single field updated on click.
- The short riser above each child: it is drawn for every entry of a node's children row, including a single child, so it is implied by each entry of `kids` and not recorded separately.
- The `onEdit`, `onDelete` and `onAddChild` callbacks and the card markup. They are forwarded unchanged to the card component, which is not part of this model.
- The `level` argument affects nothing drawn. The model records it on each box only to state the depth rule.
- The card component, the hand-placed chart with PNG export, and the example wiring pages. They only present or export data.
- The database `users` table and its insert schema. This is storage glue.
- Validator input that is not a JSON object, and zod's exact issue objects. The model keeps each issue's path and kind, and the message for the two `min(1)` checks.
- String length is counted in characters, not UTF-16 code units. This makes no difference for `min(1)`, which only separates the empty string from the rest.
- Cycle and duplicate-id errors: the code raises neither, so neither is modelled.
