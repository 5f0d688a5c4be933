# Polygon closest point and port-tree editing, in Dafny

This project models two pieces of logic from a small TypeScript repository.

**Polygon closest point** (`polygon-visualizer`). A query point is projected
onto a polygon, which may be concave:

- Each edge has a clamped segment projection.
- A winding-number membership test treats any point whose squared distance
  to an edge is below `EPSILON` (1e-10) as on the boundary.
- The public operation returns the query point itself when it is inside or
  on the boundary.
- Otherwise it returns the projection onto the first edge whose projection
  is nearest.

Coordinates are exact `real`s. The code uses only `+ - * /` and comparisons,
so every branch is modelled exactly.

**Port-tree editing** (`port-template`). The editor component holds a forest
of ports (`id`, `value`, `readOnly`, `children`) and a `nextId` counter. It
appends roots and edits the forest through three recursive transforms:

- append a root, with id `nextId` (no recursion);
- merge a partial record into the port with a given id;
- append a child with id `parent.id + "." + (number of children + 1)`;
- delete every port with a given id, at any depth, together with its subtree.

Files:

- `wrappers.dfy` (`Wrappers`): `Option` and `Result`.
- `polygon.dfy` (`Polygon`):
  - the geometry as functions;
  - the membership test and the closest-point query as methods with loops,
    each proved equal to a specification function;
  - lemmas about the query's result: it is inside, it is idempotent, it is
    the nearest boundary point, and ties go to the first edge.
- `polygon_examples.dfy` (`PolygonExamples`): worked examples on the
  visualizer's square and L-shape. The notch point of the L is equally near
  two edges, and the answer is the first of them.
- `porttree.dfy` (`PortTree`):
  - the tree transforms as recursive functions over `PortNode` and
    `seq<PortNode>`;
  - the decimal rendering of the counter;
  - the component state as the class `PortTemplate`, whose methods assign
    `ports` and `nextId`.

## Model

| member | source | states |
|---|---|---|
| Polygon.IsLeft | polygon-visualizer/src/polygon.ts:106-108 | the cross product of `b - a` and `p - a`; what its sign means (left, on the line, right) is proved in IsLeftSign, IsLeftOfOffsetSign, IsLeftOnLine and IsLeftZeroIffOnLine |
| Polygon.DistanceSquared | polygon-visualizer/src/polygon.ts:17-21 | the squared distance is never negative and is zero from a point to itself |
| Polygon.IsLeftOfOffset | polygon-visualizer/src/polygon.ts:98-108 | a point moved from `a` by `s` along `b - a` and by `u` along the left normal has cross product `u` times the squared length, whatever `s` is |
| Polygon.OffsetCoordinates | polygon-visualizer/src/polygon.ts:98-108 | for a proper segment, every point is reached that way, with the raw projection parameter along the segment and `IsLeft / length^2` along the normal |
| Polygon.IsLeftSign | polygon-visualizer/src/polygon.ts:98-108 | for a proper segment, the cross product is positive exactly when the point lies on the left of the directed line (positive normal coordinate) and negative exactly when it lies on the right |
| Polygon.IsLeftOfOffsetSign | polygon-visualizer/src/polygon.ts:98-108 | for a proper segment, a point offset to the left has a positive cross product and one offset to the right a negative one |
| Polygon.IsLeftOnLine | polygon-visualizer/src/polygon.ts:98-108 | every point of the line through `a` and `b` has a zero cross product |
| Polygon.IsLeftZeroIffOnLine | polygon-visualizer/src/polygon.ts:98-108 | for a proper segment, the cross product is zero exactly when `p` lies on the line through `a` and `b` |
| Polygon.SegmentLengthSquared | polygon-visualizer/src/polygon.ts:33-37 | the squared segment length is the squared distance between the two end points |
| Polygon.Degenerate | polygon-visualizer/src/polygon.ts:36-40 | a segment counts as a single point when its squared length is below EPSILON |
| Polygon.Clamp01 | polygon-visualizer/src/polygon.ts:44-46 | the clamped parameter lies in [0, 1]: it is 0 for raw values at most 0, 1 for raw values at least 1, and the raw value in between |
| Polygon.ClosestPointOnSegment | polygon-visualizer/src/polygon.ts:32-53 | a segment whose squared length is below EPSILON yields `a`; otherwise the result is `a` when the raw projection is at most 0, `b` when it is at least 1, and the foot of the perpendicular in between |
| Polygon.ClosestPointOnSegmentOnSegment | polygon-visualizer/src/polygon.ts:42-52 | the result is `a + t*(b-a)` for some `t` in [0, 1] |
| Polygon.RawParameterOfLerp | polygon-visualizer/src/polygon.ts:42-46 | the raw projection parameter of the point at parameter `t` is `t` |
| Polygon.ClosestPointOnSegmentIdempotent | polygon-visualizer/src/polygon.ts:32-53 | projecting a projection onto the same segment leaves it where it is |
| Polygon.DistanceAlongSegment | polygon-visualizer/src/polygon.ts:42-52 | the squared distance from `p` to the point at parameter `s` is a quadratic in `s` |
| Polygon.ClampedMinimum | polygon-visualizer/src/polygon.ts:44-46 | over [0, 1], that quadratic is least at the clamped vertex parameter |
| Polygon.ClampedParameterMinimizes | polygon-visualizer/src/polygon.ts:42-52 | the clamped raw parameter minimises the distance quadratic of the segment over [0, 1] |
| Polygon.ClosestPointOnSegmentIsNearest | polygon-visualizer/src/polygon.ts:32-53 | on a proper segment, no point of the segment is nearer to `p` than the projection |
| Polygon.NearEdge | polygon-visualizer/src/polygon.ts:73-77 | `p` is on the boundary at edge `i` when the squared distance to its projection onto that edge is below EPSILON |
| Polygon.WindingContribution | polygon-visualizer/src/polygon.ts:79-92 | an edge adds +1 exactly for an upward crossing (start at or below, end above) with `p` on its left, -1 exactly for a downward crossing with `p` on its right, and 0 otherwise |
| Polygon.WindingNumber | polygon-visualizer/src/polygon.ts:67-93 | the sum of the contributions of the first `k` edges lies in [-k, k] |
| Polygon.InPolygon | polygon-visualizer/src/polygon.ts:56-62 | the meaning of the membership test, stated without a loop: at least three vertices, and either some edge is near `p` or the winding number over all edges is nonzero |
| Polygon.IsPointInPolygon | polygon-visualizer/src/polygon.ts:63-96 | the result is the membership predicate: false below three vertices; true when the squared distance to some edge is below EPSILON, whatever the earlier edges contributed; otherwise true exactly when the winding number is nonzero |
| Polygon.FirstNearestEdge | polygon-visualizer/src/polygon.ts:131-146 | over edges `0 .. k-1`, the result is the first edge of least projection distance: no edge is nearer, and every earlier edge is strictly farther |
| Polygon.NearestEdge | polygon-visualizer/src/polygon.ts:131-146 | over the whole polygon, the result is the first nearest edge |
| Polygon.FirstNearestEdgeUnique | polygon-visualizer/src/polygon.ts:142-145 | at most one edge is the first nearest edge, so ties resolve to a single index |
| Polygon.ClosestPoint | polygon-visualizer/src/polygon.ts:120-149 | the query fails exactly when there are fewer than three vertices; an inside or boundary point is returned unchanged; otherwise the result is the projection onto a first nearest edge |
| Polygon.ClosestPointInPolygon | polygon-visualizer/src/polygon.ts:120-149 | the method's single pass from edge 1, with its strict `<` update, returns what `ClosestPoint` specifies |
| Polygon.ClosestPointOutside | polygon-visualizer/src/polygon.ts:130-148 | for an outside point, the result is the projection onto the first nearest edge, whichever index that is |
| Polygon.ClosestPointIsInPolygon | polygon-visualizer/src/polygon.ts:125-148 | every returned point is itself classified as inside or on the boundary |
| Polygon.ClosestPointIdempotent | polygon-visualizer/src/polygon.ts:125-128 | querying the returned point again gives the same answer |
| Polygon.ClosestPointIsNearestBoundaryPoint | polygon-visualizer/src/polygon.ts:130-148 | for an outside point, the result is at least as near as every point of every proper edge |
| PolygonExamples.CentreWinding | polygon-visualizer/src/visualizer.ts:10-15 | the square's centre has winding number 1 |
| PolygonExamples.CentreAnswer | polygon-visualizer/src/visualizer.ts:10-15 | the square's centre is returned unchanged |
| PolygonExamples.NotchFarFromEdges | polygon-visualizer/src/visualizer.ts:16-23 | the notch point (500, 150) of the L-shape has squared distance at least EPSILON to every edge |
| PolygonExamples.NotchWinding | polygon-visualizer/src/visualizer.ts:16-23 | the notch point has winding number 0 |
| PolygonExamples.NotchOutside | polygon-visualizer/src/visualizer.ts:16-23 | the notch point is outside the L-shape |
| PolygonExamples.NotchNearestEdge | polygon-visualizer/src/visualizer.ts:16-23 | edge 1 is the first nearest edge to the notch point |
| PolygonExamples.NotchTie | polygon-visualizer/src/visualizer.ts:16-23 | edges 1 and 2 are equally near the notch point but project it onto different points |
| PolygonExamples.NotchAnswer | polygon-visualizer/src/visualizer.ts:16-23 | for the notch point the answer is (400, 150), the projection onto the first of the two tied edges |
| PortTree.NatToString | port-template/src/components/PortTemplate.tsx:18 | a counter renders as a decimal numeral, of one digit exactly below 10 |
| PortTree.NatToStringRoundTrip | port-template/src/components/PortTemplate.tsx:18 | reading the numeral back gives the counter |
| PortTree.NatToStringInjective | port-template/src/components/PortTemplate.tsx:18 | different counters render differently |
| PortTree.NewPort | port-template/src/components/PortTemplate.tsx:17-22 | a new port has the given id, an empty value, is editable and has no children |
| PortTree.Merge | port-template/src/components/PortTemplate.tsx:31 | each field present in the update overwrites the node's field; each absent field is kept |
| PortTree.MergeNoUpdate | port-template/src/components/PortTemplate.tsx:31 | merging the empty update changes nothing |
| PortTree.MergeIdempotent | port-template/src/components/PortTemplate.tsx:31 | merging the same update twice has the effect of merging it once |
| PortTree.UpdateForest | port-template/src/components/PortTemplate.tsx:28-38 | the sibling list keeps its length and order, node by node |
| PortTree.UpdateNode | port-template/src/components/PortTemplate.tsx:29-37 | a matching node is merged and its descendants are not searched; any other node keeps its fields and is searched below |
| PortTree.UpdateForestAbsent | port-template/src/components/PortTemplate.tsx:28-39 | updating an id that appears nowhere returns an equal forest |
| PortTree.UpdateNodeAbsent | port-template/src/components/PortTemplate.tsx:29-37 | a node with no matching id in its subtree is returned unchanged |
| PortTree.UpdateForestNoUpdate | port-template/src/components/PortTemplate.tsx:28-39 | the empty update leaves the forest equal |
| PortTree.UpdateNodeNoUpdate | port-template/src/components/PortTemplate.tsx:29-37 | the empty update leaves a node equal |
| PortTree.UpdateForestIdempotent | port-template/src/components/PortTemplate.tsx:28-39 | repeating an update that does not rename the port to another id changes nothing more |
| PortTree.UpdateNodeIdempotent | port-template/src/components/PortTemplate.tsx:29-37 | the same, for one subtree |
| PortTree.UpdateForestKeepsShape | port-template/src/components/PortTemplate.tsx:28-39 | an update that touches neither the id nor the children keeps the set of ids and the number of ports |
| PortTree.UpdateNodeKeepsShape | port-template/src/components/PortTemplate.tsx:29-37 | the same, for one subtree |
| PortTree.NewChild | port-template/src/components/PortTemplate.tsx:46-52 | the new child is a fresh port whose id is the parent's id, a dot, and the numeral for the old number of children plus one, so it extends the parent's id |
| PortTree.AddChildForest | port-template/src/components/PortTemplate.tsx:43-60 | the sibling list keeps its length and order, node by node |
| PortTree.AddChildNode | port-template/src/components/PortTemplate.tsx:44-59 | the node keeps its id, value and flag; a matching node gets its old children plus the new child at the end; any other node is searched below |
| PortTree.AddChildForestAbsent | port-template/src/components/PortTemplate.tsx:43-60 | adding a child to an id that appears nowhere returns an equal forest |
| PortTree.AddChildNodeAbsent | port-template/src/components/PortTemplate.tsx:44-59 | a node with no matching id in its subtree is returned unchanged |
| PortTree.AddChildForestGrows | port-template/src/components/PortTemplate.tsx:42-62 | all ids survive, the port count never drops, and it grows exactly when the parent id is present |
| PortTree.AddChildNodeGrows | port-template/src/components/PortTemplate.tsx:44-59 | the same, for one subtree |
| PortTree.Filter | port-template/src/components/PortTemplate.tsx:66-67 | the surviving roots are exactly the roots whose id differs, with their ids in the original order |
| PortTree.FilterAppend | port-template/src/components/PortTemplate.tsx:66-67 | filtering a concatenation is the concatenation of the filtered parts, which fixes the result node by node |
| PortTree.FilterKeepsOrder | port-template/src/components/PortTemplate.tsx:66-67 | each surviving node sits in the result right after the survivors that precede it, so survivors keep their order as nodes even when ids repeat |
| PortTree.PruneEach | port-template/src/components/PortTemplate.tsx:68-71 | each root keeps its id, value and flag, and its children are pruned recursively |
| PortTree.DeleteForest | port-template/src/components/PortTemplate.tsx:64-72 | no surviving root has the deleted id, and the forest does not grow |
| PortTree.DeleteIsFilterThenMap | port-template/src/components/PortTemplate.tsx:65-71 | the fused recursion is the filter of the roots followed by pruning each survivor |
| PortTree.DeleteKeepsRootOrder | port-template/src/components/PortTemplate.tsx:65-71 | the surviving roots keep their relative order, as ids and as nodes: each surviving root, with its children pruned, sits right after the survivors that precede it |
| PortTree.DeleteRemovesId | port-template/src/components/PortTemplate.tsx:64-72 | afterwards no port at any depth has the id, and no id is introduced |
| PortTree.DeleteAbsent | port-template/src/components/PortTemplate.tsx:65-71 | deleting an absent id returns an equal forest |
| PortTree.DeleteIdempotent | port-template/src/components/PortTemplate.tsx:64-74 | deleting the same id again changes nothing |
| PortTree.DeleteShrinks | port-template/src/components/PortTemplate.tsx:64-72 | the port count never grows |
| PortTree.OccursInSize | port-template/src/components/PortTemplate.tsx:64-72 | a subtree that occurs at any depth of a forest is no larger than the forest |
| PortTree.DeleteDropsSubtree | port-template/src/components/PortTemplate.tsx:64-72 | a deleted port, at any depth, takes its whole subtree with it: the count drops by at least that subtree's size |
| PortTree.DuplicateChildId | port-template/src/components/PortTemplate.tsx:46-48 | ids are not unique: after "1.1" is deleted from the children "1.1" and "1.2" of port "1", the next child added to "1" is "1.2" again |
| PortTree.PortTemplate.constructor | port-template/src/components/PortTemplate.tsx:13-14 | the editor starts with no ports and the counter at 1 |
| PortTree.PortTemplate.AddRootPort | port-template/src/components/PortTemplate.tsx:16-25 | exactly one new root is appended after the old ones, numbered by the old counter, and the counter goes up by one; the new root's id is never "0" |
| PortTree.PortTemplate.UpdatePort | port-template/src/components/PortTemplate.tsx:27-40 | the ports become the updated forest and the counter is unchanged |
| PortTree.PortTemplate.AddChild | port-template/src/components/PortTemplate.tsx:42-62 | the ports become the forest with the child added and the counter is unchanged |
| PortTree.PortTemplate.DeletePort | port-template/src/components/PortTemplate.tsx:64-74 | the ports become the pruned forest and the counter is unchanged |

## Left out

- Floating point. Coordinates are exact reals, so IEEE-754 rounding,
  overflow and NaN are not modelled. `EPSILON` is exactly 1/10^10, whereas
  the double `1e-10` is only close to that.
- `visualizer.ts` is UI and I/O: canvas drawing, DOM access, mouse events,
  the square-root distance display and its own 0.01 "inside" heuristic.
  Only its square and L-shape vertex lists are used, as worked examples.
- `PortItem.tsx` is not part of this model: it renders JSX and forwards to
  the handlers.
- `handleSave` and `handleBack` are left out: they only log and alert. The
  JSX and the letter labels are left out too.
- React state. `useState` batching and asynchronous state updates are not
  modelled: each handler reads the current state and assigns its result.
- Partial records. A field of a partial record is either absent or a
  value. A key that is present but holds `undefined`, which the object
  spread would copy, is not modelled.
- Geometric correctness the code never checks, such as the winding number
  matching the true interior of a simple polygon. Polygon simplicity is not
  validated anywhere, so only the operational contracts are proved.
- Counter width. `nextId` is a JavaScript number: above 2^53 adding one no
  longer changes it, and from 1e21 it prints in exponent form. The model
  uses an unbounded natural number and plain decimal digits; no editing
  session comes near either bound.
- Id uniqueness in the port tree, which the code does not guarantee (see
  `DuplicateChildId`).
- DistanceSquared: states that the squared distance is zero for equal
  points, but not the converse (zero only for equal points). The solver's
  nonlinear real arithmetic does not prove that converse reliably, even
  through a sum-of-squares helper lemma, and no other result depends on it.
- ClosestPointIsNearestBoundaryPoint: compares against the points of proper
  edges only. A degenerate edge, whose squared length is below the tolerance, is projected to
  its start point rather than to its nearest point.
- The L-shape examples are stated for every sequence with exactly the six
  vertices of the visualizer's L-shape, in order. That is the same polygon,
  named through its vertices rather than as a literal list.
