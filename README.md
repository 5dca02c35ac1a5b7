# Spatial partitioning managers: quad tree, oct tree, K-D tree

This project models the three spatial index managers of the Spatial_Partitioning
demo in Dafny and proves properties of them. Each manager keeps a complete tree
of nodes in one vector, allocated once at start-up. Every frame it re-files the
registered interactive shapes into that vector. It then answers "which shapes
are near this one" queries.

- **Quad tree** (`quad_tree.dfy`, module `QuadTree`; the manager class in
  `quad_manager.dfy`, module `QuadManager`). This is a 4-ary tree over
  axis-aligned rectangles. The children of the node in slot k sit in slots
  4k + 1 .. 4k + 4. A shape is pushed down a node index walk:
  - a miss moves on to the next slot;
  - a partial hit below the root stores the shape with the node's parent;
  - a full hit on a full, childless node above the depth limit subdivides the
    node and re-inserts what the node held;
  - any other full hit stores the shape in the node, or descends into its
    children.

  The query follows the same walk without changing anything.
- **Oct tree** (`oct_tree.dfy`, module `OctTree`; the manager class in
  `oct_manager.dfy`, module `OctManager`). It does the same over boxes,
  with eight children per node in slots 8k + 1 .. 8k + 8. Two things differ:
  - nodes start inactive;
  - the re-filling starts with `ResetTree`, which uses an explicit stack and
    clears only the part of the tree it reaches through active nodes with
    children.

  The collision test's z terms measure the node's front face from the
  collider's back and the node's back face from the collider's front. Every
  walk takes a flag `matchedZ`: with `false` it uses the test as written,
  with `true` a corrected test whose z faces are matched. For the test as
  written, the model proves these consequences:
  - a full hit still means strict containment;
  - a shape that encloses a node on z reads as a partial hit;
  - a shape across the middle planes of a subdivided node misses all eight
    children and is lost (see Findings).
- **K-D tree** (`kd_nodes.dfy`, `kd_build.dfy`, `kd_sort.dfy`, `kd_split.dfy`,
  `kd_query.dfy`, `kd_tree.dfy`). This is a binary tree in heap layout whose
  split axis alternates between x and y.
  - `InitKDTree` builds the vector with an explicit stack of node records.
  - `UpdateKDtree` works off a stack of (start, end, node) frames. For each
    frame it:
    1. bubble-sorts that range of the shape vector along the node's axis;
    2. activates the node with the median shape's coordinate;
    3. pushes the two halves around the median when the node lies above the
       split depth and the median is neither end of the range.
  - `GetNearbyShapes` descends along the splits and copies out the range of
    the node it stops at.

Shared pieces:
- `depth_sums.dfy` holds the level sums that `GetDepthIndex` computes.
- `geometry.dfy` holds the collider of a shape.
- `wrappers.dfy` holds `Option`.

The managers become classes. The node vector is an `array` of node records and
the shape list is a `seq` of shape ids. Static members of the source become
fields.

Each state-changing method is specified against a ghost function of the old
state:
- `Insert` / `InsertAll` / `Subdivided` give the walk of `AddShape`;
- `Swept` gives `ResetTree`;
- `Plan` gives the K-D construction;
- `Rebuilt` gives the state `UpdateKDtree` promises.

The walk functions themselves only state that the layout is kept. What the
walks achieve is proved in `quad_placement.dfy` and `oct_placement.dfy`,
against an independent reference placement, `Home`: start at the root and
descend into the child that strictly contains the collider while the node has
children. Under an invariant (index fields, child bounds tiling the parent,
active nodes forming a tree, capacity, every stored shape in its Home), the
lemmas there prove:
- every walk keeps the invariant and adds exactly its shape;
- after a rebuild, the query for each registered shape names a list that
  holds it;
- no childless node above the depth limit holds more than maxPerNode shapes;
- a node with children holds only shapes that straddle its midlines.

These results need shapes of positive extent lying strictly inside the root.
For the oct tree they are proved with matched z faces only.

Assumptions about inputs:
- Shapes are ids.
- A shape's collider or position during one rebuild is a function parameter
  (`collider: nat -> Collider`, `position: nat -> Position`).
- Coordinates are `real`.

## Model

| member | source | states |
|---|---|---|
| DepthSums.LevelSumClosedForm | Quad_Tree/Quad_Tree-GLFW/QuadTreeManager.cpp:259-269 | The count GetDepthIndex adds up, the sum of b^i for i = 0..d, satisfies (b - 1) * sum + 1 == b^(d+1). |
| DepthSums.LevelSumNext | Quad_Tree/Quad_Tree-GLFW/QuadTreeManager.cpp:220 | GetDepthIndex(d) == b * GetDepthIndex(d - 1) + 1. This is why InitNode's base GetDepthIndex(depth) + childNum * b puts the children of slot k at slot b * k + 1. |
| DepthSums.LevelSumMonotone | Quad_Tree/Quad_Tree-GLFW/QuadTreeManager.cpp:19-21 | The vector for a deeper tree is at least as long. |
| QuadTree.GetDepthIndex | Quad_Tree/Quad_Tree-GLFW/QuadTreeManager.cpp:259-269 | The counting loop returns the sum of 4^i for i = 0..depth, and 0 for a negative depth, where the loop does not run. |
| QuadTree.DepthOfBlock | Quad_Tree/Quad_Tree-GLFW/QuadTreeManager.cpp:220-225 | The slots GetDepthIndex(d - 1) .. GetDepthIndex(d) - 1 are exactly those of depth d. |
| QuadTree.SlotInBlock | Quad_Tree/Quad_Tree-GLFW/QuadTreeManager.cpp:220-225 | Every slot lies in the block of its own depth. |
| QuadTree.BlockLayout | Quad_Tree/Quad_Tree-GLFW/QuadTreeManager.cpp:198-202 | The node with offset c at depth d sits in slot k = GetDepthIndex(d - 1) + c. Its child j, at GetDepthIndex(d) + 4c + j, is slot 4k + 1 + j: after k, one level down, with k as its parent. |
| QuadTree.ChildArithmetic | Quad_Tree/Quad_Tree-GLFW/QuadTreeManager.cpp:198-202 | The childNum that InitChildren derives gives child j of slot k the children block that starts at 4(4k + 1 + j) + 1. |
| QuadTree.ChildrenInTree | Quad_Tree/Quad_Tree-GLFW/QuadTreeManager.cpp:19-24 | The four children of every node above the last level lie inside the vector of GetDepthIndex(maxDepth) slots. |
| QuadTree.InitReady | Quad_Tree/Quad_Tree-GLFW/QuadTreeManager.cpp:21-24 | When the constructor's loop reaches slot i, that slot's children block is recorded and lies inside the vector. |
| QuadTree.LaidChild | Quad_Tree/Quad_Tree-GLFW/QuadTreeManager.cpp:199-202 | A child written by InitChildren below a laid-out node is laid out: its block, parent, depth and quadrant of the parent's bounds, active and empty. |
| QuadTree.LaidStep | Quad_Tree/Quad_Tree-GLFW/QuadTreeManager.cpp:22-25 | After InitChildren(i), every slot up to 4i + 4 is laid out. |
| QuadTree.LaidIndexed | Quad_Tree/Quad_Tree-GLFW/QuadTreeManager.cpp:14-25 | A fully laid-out vector records the heap index fields (children 4k + 1 .., parent (k - 1) / 4, depth 0 only at the root, children inside the vector above maxDepth), and child j's bounds are quadrant j of its parent's. |
| QuadTree.TiledAt | Quad_Tree/Quad_Tree-GLFW/QuadTreeManager.cpp:193-203 | In a tiled vector, the bounds of slot 4p + 1 + j are quadrant j of the bounds of slot p. |
| QuadTree.CheckShapeNodeCollide | Quad_Tree/Quad_Tree-GLFW/QuadTreeManager.cpp:175-191 | The result is 0, 1 or 2. It is 2 exactly when every collider face is less than a node span from the node's face and the collider lies strictly inside. |
| QuadTree.ClassificationMeaning | Quad_Tree/Quad_Tree-GLFW/QuadTreeManager.cpp:175-191 | For a collider with non-negative extents: 2 iff strictly inside on both axes, 1 iff faces near but not inside, 0 iff faces not near. |
| QuadTree.QuadrantsTile | Quad_Tree/Quad_Tree-GLFW/QuadTreeManager.cpp:196-202 | The four quadrants InitChildren hands out cover the parent, and no point lies in the interiors of two of them. |
| QuadTree.ActivateNode | Quad_Tree/Quad_Tree-GLFW/QuadTreeManager.cpp:249-257 | The node is active and childless. Its list and layout are kept. |
| QuadTree.DeactivateNode | Quad_Tree/Quad_Tree-GLFW/QuadTreeManager.cpp:241-247 | The node is inactive with an empty list. hasChildren is left as it was, and the layout is kept. |
| QuadTree.PushShape | Quad_Tree/Quad_Tree-GLFW/QuadTreeManager.cpp:130 | Storing a shape in a node's list never changes the layout of the vector. |
| QuadTree.ChildrenActivated | Quad_Tree/Quad_Tree-GLFW/QuadTreeManager.cpp:232-239 | Marking a node as having children and activating its four children keeps the layout. |
| QuadTree.Split | Quad_Tree/Quad_Tree-GLFW/QuadTreeManager.cpp:146-149 | ActivateChildren followed by clearing the node's list keeps the layout. |
| QuadTree.Reset | Quad_Tree/Quad_Tree-GLFW/QuadTreeManager.cpp:32-37 | Deactivating all nodes and re-activating the root keeps the layout. |
| QuadTree.Insert | Quad_Tree/Quad_Tree-GLFW/QuadTreeManager.cpp:110-172 | The walk of AddShape, including nested subdivisions, never changes any node's children, parent, depth or bounds. Where it stores the shape is stated by QuadPlacement.WalkAt. |
| QuadTree.InsertAll | Quad_Tree/Quad_Tree-GLFW/QuadTreeManager.cpp:39-42 | Adding a list of shapes one after the other keeps the layout. Capacity and containment afterwards are stated by QuadPlacement.RootWalks and QuadPlacement.RebuildPlaces. |
| QuadTree.Subdivided | Quad_Tree/Quad_Tree-GLFW/QuadTreeManager.cpp:144-155 | Subdividing and re-adding the node's former shapes from its first child keeps the layout. What the node keeps afterwards is stated by QuadPlacement.SubdivideAt and QuadPlacement.HeldStraddles. |
| QuadTree.QueryFrom | Quad_Tree/Quad_Tree-GLFW/QuadTreeManager.cpp:65-105 | The walk of GetNearbyShapes names a slot inside the vector, or None where the loop runs off its end. Which slot it names is stated by QuadPlacement.QueryFindsHome and QuadPlacement.HeldFound. |
| QuadPlacement.ChildReading | Quad_Tree/Quad_Tree-GLFW/QuadTreeManager.cpp:175-202 | Against quadrant j of bounds that strictly contain a collider of positive extents, the classification is one point for reaching across both midlines towards quadrant j, plus one for lying strictly inside the quadrant. |
| QuadPlacement.BlockFull | Quad_Tree/Quad_Tree-GLFW/QuadTreeManager.cpp:117-122 | Below a node that strictly contains the collider: if a child strictly contains it, that child reads full, the other three miss, and it is the first child the walk does not pass over. |
| QuadPlacement.BlockStraddle | Quad_Tree/Quad_Tree-GLFW/QuadTreeManager.cpp:123-138 | If no child strictly contains it, some child does not miss it, and the first such child reads partial, which sends the walk back to the parent. |
| QuadPlacement.HomeInside | Quad_Tree/Quad_Tree-GLFW/QuadTreeManager.cpp:193-203 | Home, the reference placement that descends into the child strictly containing the collider while the node has children, ends at a node that still strictly contains it. |
| QuadPlacement.QueryHome | Quad_Tree/Quad_Tree-GLFW/QuadTreeManager.cpp:65-105 | On an indexed, tiled vector whose active nodes form a tree, the query from an active node strictly containing a collider of positive extents names that collider's Home. |
| QuadPlacement.QueryFindsHome | Quad_Tree/Quad_Tree-GLFW/QuadTreeManager.cpp:65-105 | For a collider of positive extents strictly inside the root, the query from the root names its Home. |
| QuadPlacement.PushKeeps | Quad_Tree/Quad_Tree-GLFW/QuadTreeManager.cpp:158-163 | Pushing a shape onto its Home, when that node is not a full childless node above the depth limit, keeps the invariant (index, tiling, active tree, only active nodes hold shapes, capacity, every shape in its Home) and adds the shape to the multiset of stored shapes. |
| QuadPlacement.SplitKeeps | Quad_Tree/Quad_Tree-GLFW/QuadTreeManager.cpp:144-149 | Splitting an active childless node above the depth limit keeps the invariant, leaves it active with children and takes exactly its shapes out of the stored multiset. |
| QuadPlacement.WalkAt | Quad_Tree/Quad_Tree-GLFW/QuadTreeManager.cpp:110-172 | The walk from any active slot on a shape's way down that strictly contains it keeps the invariant, so the shape lands in its Home and no childless node above the limit exceeds maxPerNode, and adds exactly that shape to the stored multiset. |
| QuadPlacement.SubdivideAt | Quad_Tree/Quad_Tree-GLFW/QuadTreeManager.cpp:144-155 | The subdivision with the re-insertion of the node's shapes keeps the invariant and the stored multiset, and leaves the node with children. |
| QuadPlacement.WalkAdds | Quad_Tree/Quad_Tree-GLFW/QuadTreeManager.cpp:110-172 | The same as WalkAt, stated for every vector as an implication. |
| QuadPlacement.SubdivisionKeeps | Quad_Tree/Quad_Tree-GLFW/QuadTreeManager.cpp:144-155 | The same as SubdivideAt, stated for every vector as an implication. |
| QuadPlacement.RootWalks | Quad_Tree/Quad_Tree-GLFW/QuadTreeManager.cpp:39-42 | Adding a list of placeable shapes from the root keeps the invariant and adds exactly the list to the stored multiset. |
| QuadPlacement.ResetKeeps | Quad_Tree/Quad_Tree-GLFW/QuadTreeManager.cpp:32-37 | After the reset only the root is active, it has no children, nothing is stored, and the invariant holds. |
| QuadPlacement.HeldStraddles | Quad_Tree/Quad_Tree-GLFW/QuadTreeManager.cpp:142-157 | Under the invariant, a node with children holds only shapes that no child strictly contains, and the first child they are not missed by reads them as partial: the overflow leaves only straddling shapes behind. |
| QuadPlacement.HeldFound | Quad_Tree/Quad_Tree-GLFW/QuadTreeManager.cpp:65-105 | Under the invariant, the query from the root for the collider of a stored shape names the slot whose list holds it. |
| QuadPlacement.AllStraddling | Quad_Tree/Quad_Tree-GLFW/QuadTreeManager.cpp:142-157 | Under the invariant, every node with children holds only straddling shapes. |
| QuadPlacement.AllFound | Quad_Tree/Quad_Tree-GLFW/QuadTreeManager.cpp:65-105 | Under the invariant, when the stored multiset is that of a list, the query for each listed shape names a list that holds it. |
| QuadPlacement.RebuildPlaces | Quad_Tree/Quad_Tree-GLFW/QuadTreeManager.cpp:30-43 | After UpdateQuadtree over shapes of positive extents strictly inside the root: every registered shape is stored as often as it is registered and nowhere else, the query for it names a list holding it, no childless node above the limit holds more than maxPerNode shapes, and nodes with children hold only straddling shapes. |
| QuadManager.QuadTreeManager.InitNode | Quad_Tree/Quad_Tree-GLFW/QuadTreeManager.cpp:205-230 | The node's children block starts at GetDepthIndex(depth) + childNum * 4. It records the given parent, depth and bounds, and it is active, childless and empty. |
| QuadManager.QuadTreeManager.ChildNodes | Quad_Tree/Quad_Tree-GLFW/QuadTreeManager.cpp:195-202 | The four records InitChildren creates for slot i are the fresh children 4i + 1 .. 4i + 4, one per quadrant of the parent's bounds. |
| QuadManager.QuadTreeManager.InitChildren | Quad_Tree/Quad_Tree-GLFW/QuadTreeManager.cpp:193-203 | Exactly slots 4i + 1 .. 4i + 4 change, and they receive the fresh children of slot i. |
| QuadManager.QuadTreeManager.InitQuadTree | Quad_Tree/Quad_Tree-GLFW/QuadTreeManager.cpp:14-26 | The vector has GetDepthIndex(maxDepth) slots, every slot is laid out below the given bounds, and the manager holds no shapes. |
| QuadManager.QuadTreeManager.AddShape | Quad_Tree/Quad_Tree-GLFW/QuadTreeManager.cpp:45-48 | The shape is appended to the registry and nothing else changes. |
| QuadManager.QuadTreeManager.ActivateChildren | Quad_Tree/Quad_Tree-GLFW/QuadTreeManager.cpp:232-239 | The vector becomes ChildrenActivated of the old one, and its index fields are kept. |
| QuadManager.QuadTreeManager.PushShapeOnto | Quad_Tree/Quad_Tree-GLFW/QuadTreeManager.cpp:162 | The vector becomes the old one with the shape appended to slot k's list. |
| QuadManager.QuadTreeManager.AddShapeFrom | Quad_Tree/Quad_Tree-GLFW/QuadTreeManager.cpp:110-172 | The loop leaves exactly Insert of the old vector from startingNode. When the invariant held and the shape is placeable and on its way down at startingNode, the invariant still holds and the shape has been added to the stored multiset. |
| QuadManager.QuadTreeManager.Subdivide | Quad_Tree/Quad_Tree-GLFW/QuadTreeManager.cpp:144-155 | The vector becomes Subdivided of the old one at slot k. From an active childless node under the invariant, the invariant and the stored multiset are kept and the node has children. |
| QuadManager.QuadTreeManager.UpdateQuadtree | Quad_Tree/Quad_Tree-GLFW/QuadTreeManager.cpp:30-43 | The vector is reset and then has every registered shape added from the root, in registry order. When every registered shape is placeable, the result is what RebuildPlaces states: invariant, exact multiset, every shape found, only straddlers above the leaves. |
| QuadManager.QuadTreeManager.GetNearbyShapes | Quad_Tree/Quad_Tree-GLFW/QuadTreeManager.cpp:65-105 | The result is the list of the slot QueryFrom names from the root, or None where the loop falls off. For a placeable collider on an active tree it is the list of the collider's Home. |
| OctTree.GetDepthIndex | Oct_Tree/Oct_Tree-GLFW/OctTreeManager.cpp:285-295 | The counting loop returns the sum of 8^i for i = 0..depth, and 0 for a negative depth. |
| OctTree.DepthOfBlock | Oct_Tree/Oct_Tree-GLFW/OctTreeManager.cpp:213-222 | The slots GetDepthIndex(d - 1) .. GetDepthIndex(d) - 1 are exactly those of depth d. |
| OctTree.SlotInBlock | Oct_Tree/Oct_Tree-GLFW/OctTreeManager.cpp:213-222 | Every slot lies in the block of its own depth. |
| OctTree.BlockLayout | Oct_Tree/Oct_Tree-GLFW/OctTreeManager.cpp:184-192 | The node with offset c at depth d sits in slot k = GetDepthIndex(d - 1) + c. Its child j is slot 8k + 1 + j, one level down, with k as parent. |
| OctTree.ChildBlocksOf | Oct_Tree/Oct_Tree-GLFW/OctTreeManager.cpp:184-192 | With InitChildren's childNum, each of the eight children 8k + 1 + j gets the block starting at 8(8k + 1 + j) + 1. |
| OctTree.ChildrenInTree | Oct_Tree/Oct_Tree-GLFW/OctTreeManager.cpp:18-24 | The children of every node above the last level lie inside the vector. |
| OctTree.CheckShapeNodeCollide | Oct_Tree/Oct_Tree-GLFW/OctTreeManager.cpp:157-176 | The result is 0, 1 or 2. It is 2 iff both summands hold, and 0 iff neither does. |
| OctTree.FullMeansInside | Oct_Tree/Oct_Tree-GLFW/OctTreeManager.cpp:173-174 | For non-negative extents, 2 iff the collider lies strictly inside the box on all three axes. |
| OctTree.ZTestIsOverlap | Oct_Tree/Oct_Tree-GLFW/OctTreeManager.cpp:168-174 | The second summand's z part is an overlap test of the z ranges, not containment. The two agree only for a collider with no z extent. |
| OctTree.EnclosingOnZIsPartial | Oct_Tree/Oct_Tree-GLFW/OctTreeManager.cpp:173-174 | A collider strictly inside a node on x and y that encloses it on z reads as partial (1), not as a miss. |
| OctTree.CheckMatchedCollide | Oct_Tree/Oct_Tree-GLFW/OctTreeManager.cpp:157-176 | The corrected test, with the front face measured from the collider's front and the back face from its back: the result is 0, 1 or 2, and for non-negative extents 2 iff the collider lies strictly inside. |
| OctTree.OctantsOf | Oct_Tree/Oct_Tree-GLFW/OctTreeManager.cpp:181-192 | The eight octants are exactly the boxes InitChildren passes to InitNode: front half first, each half top-left, top-right, bottom-left, bottom-right. |
| OctTree.OctantsTile | Oct_Tree/Oct_Tree-GLFW/OctTreeManager.cpp:181-192 | The octants cover the parent, and no point lies in the interiors of two of them. |
| OctTree.StraddlerMissesChildren | Oct_Tree/Oct_Tree-GLFW/OctTreeManager.cpp:173-174 | A collider reaching across the middle z plane is never a full hit for any child. If it also reaches across the middle x or y plane, it is a miss for every child. |
| OctTree.CentredShapeFallsThrough | Oct_Tree/Oct_Tree-GLFW/OctTreeManager.cpp:98-107 | A cube of side 0.2 at the centre of the unit cube is a full hit for the node and a miss for each of its eight children, so the walk moves past the children block. |
| OctTree.TiledAt | Oct_Tree/Oct_Tree-GLFW/OctTreeManager.cpp:178-193 | In a tiled vector, the box of slot 8p + 1 + j is octant j of the box of slot p. |
| OctTree.ActivateNode | Oct_Tree/Oct_Tree-GLFW/OctTreeManager.cpp:278-283 | The node is active and childless, with its list and layout kept. |
| OctTree.ClearNode | Oct_Tree/Oct_Tree-GLFW/OctTreeManager.cpp:257-261 | A node ResetTree visits becomes inactive with an empty list. hasChildren is kept, and so is the layout. |
| OctTree.PushShape | Oct_Tree/Oct_Tree-GLFW/OctTreeManager.cpp:113 | Storing a shape in a node's list keeps the layout. |
| OctTree.ChildrenActivated | Oct_Tree/Oct_Tree-GLFW/OctTreeManager.cpp:234-245 | Activating a node's eight children keeps the layout. |
| OctTree.ActivatedByWrites | Oct_Tree/Oct_Tree-GLFW/OctTreeManager.cpp:234-245 | The nine writes of ActivateChildren leave exactly ChildrenActivated. |
| OctTree.SplitFlags | Oct_Tree/Oct_Tree-GLFW/OctTreeManager.cpp:125-129 | Subdividing only above the depth limit keeps every node flagged as having children above the last level. |
| OctTree.Split | Oct_Tree/Oct_Tree-GLFW/OctTreeManager.cpp:129-132 | ActivateChildren followed by clearing the node's list keeps the layout. |
| OctTree.Insert | Oct_Tree/Oct_Tree-GLFW/OctTreeManager.cpp:95-155 | The walk of AddShape, with the source's test or the corrected one, never changes any node's children, parent, depth or box. Where it stores the shape is stated by OctPlacement.WalkAt and OctPlacement.CentredFallsOff. |
| OctTree.InsertAll | Oct_Tree/Oct_Tree-GLFW/OctTreeManager.cpp:31-35 | Adding a list of shapes one after the other keeps the layout. Capacity and containment afterwards are stated by OctPlacement.RebuildPlaces and OctPlacement.CentredShapeLost. |
| OctTree.Subdivided | Oct_Tree/Oct_Tree-GLFW/OctTreeManager.cpp:127-138 | Subdividing and re-adding the node's shapes from its first child keeps the layout. What the node keeps afterwards is stated by OctPlacement.SubdivideAt and OctPlacement.HeldStraddles. |
| OctTree.QueryFrom | Oct_Tree/Oct_Tree-GLFW/OctTreeManager.cpp:53-93 | The walk of GetNearbyShapes names a slot inside the vector, or None where the loop runs off its end. Which slot it names is stated by OctPlacement.QueryFindsHome and OctPlacement.HeldFound. |
| OctTree.Swept | Oct_Tree/Oct_Tree-GLFW/OctTreeManager.cpp:247-276 | Clearing the reached nodes keeps the layout. |
| OctTree.ActiveIsReached | Oct_Tree/Oct_Tree-GLFW/OctTreeManager.cpp:252-274 | When every active non-root node has an active parent with children, ResetTree reaches every active node. |
| OctTree.SweepDeactivatesAll | Oct_Tree/Oct_Tree-GLFW/OctTreeManager.cpp:247-276 | When the active part hangs from the root: no node is active after ResetTree, every formerly active list is empty, and the hasChildren flags are untouched. |
| OctTree.SweepSkip | Oct_Tree/Oct_Tree-GLFW/OctTreeManager.cpp:254-257 | Popping an inactive node keeps the loop state. |
| OctTree.SweepClear | Oct_Tree/Oct_Tree-GLFW/OctTreeManager.cpp:257-273 | Popping an active node clears it, marks it done, pushes its children when it has some, strictly shrinks the set of uncleared slots and keeps the loop state. |
| OctTree.PushedChildren | Oct_Tree/Oct_Tree-GLFW/OctTreeManager.cpp:263-273 | After the eight pushes, every stack entry is the root or a child of a cleared node with children. |
| OctTree.ReachedCovered | Oct_Tree/Oct_Tree-GLFW/OctTreeManager.cpp:263-273 | A reached node that is not cleared stays on the stack, or has an uncleared parent. |
| OctTree.SweepFinished | Oct_Tree/Oct_Tree-GLFW/OctTreeManager.cpp:252 | When the stack is empty, the vector is exactly Swept of the one the loop started from. |
| OctTree.AllReachedDone | Oct_Tree/Oct_Tree-GLFW/OctTreeManager.cpp:252 | When the stack is empty, every reached node has been cleared. |
| OctTree.Restarted | Oct_Tree/Oct_Tree-GLFW/OctTreeManager.cpp:29-30 | ResetTree followed by activating the root keeps the layout. |
| OctTree.LaidChild | Oct_Tree/Oct_Tree-GLFW/OctTreeManager.cpp:185-192 | A child written by InitChildren below a laid-out node is laid out: its block, parent, depth and octant, inactive and empty. |
| OctTree.FreshBlockOf | Oct_Tree/Oct_Tree-GLFW/OctTreeManager.cpp:185-192 | The eight children of slot i, one by one, make up its fresh block. |
| OctTree.BlockWritten | Oct_Tree/Oct_Tree-GLFW/OctTreeManager.cpp:180-192 | Writing the eight InitNode records into slots 8i + 1 .. 8i + 8 makes a fresh block and changes nothing else. |
| OctTree.LaidPrefix | Oct_Tree/Oct_Tree-GLFW/OctTreeManager.cpp:21-24 | InitChildren(i) leaves the laid-out slots up to 8i laid out. |
| OctTree.LaidStep | Oct_Tree/Oct_Tree-GLFW/OctTreeManager.cpp:21-24 | After InitChildren(i), every slot up to 8i + 8 is laid out. |
| OctTree.InitReady | Oct_Tree/Oct_Tree-GLFW/OctTreeManager.cpp:20-24 | When the loop reaches slot i, that slot's eight children lie inside the vector and the slot records their block. |
| OctTree.LaidIndexed | Oct_Tree/Oct_Tree-GLFW/OctTreeManager.cpp:13-25 | A fully laid-out vector records the heap index fields, child j's box is octant j of its parent's, and no node is flagged as having children. |
| OctPlacement.ChildReading | Oct_Tree/Oct_Tree-GLFW/OctTreeManager.cpp:157-192 | With matched z faces, against octant j of a box that strictly contains a collider of positive extents, the reading is one point for reaching across all three middle planes towards octant j, plus one for lying strictly inside the octant. |
| OctPlacement.BlockFull | Oct_Tree/Oct_Tree-GLFW/OctTreeManager.cpp:100-107 | Below a node that strictly contains the collider: if an octant child strictly contains it, that child reads full, the other seven miss, and it is the first child the walk does not pass over. |
| OctPlacement.BlockStraddle | Oct_Tree/Oct_Tree-GLFW/OctTreeManager.cpp:108-121 | If no child strictly contains it, some child does not miss it, and the first such child reads partial, which sends the walk back to the parent. |
| OctPlacement.HomeInside | Oct_Tree/Oct_Tree-GLFW/OctTreeManager.cpp:178-193 | Home, the reference placement that descends into the octant strictly containing the collider while the node has children, ends at a node that still strictly contains it. |
| OctPlacement.QueryHome | Oct_Tree/Oct_Tree-GLFW/OctTreeManager.cpp:53-93 | With matched z faces, the query from an active node strictly containing a collider of positive extents names that collider's Home. |
| OctPlacement.QueryFindsHome | Oct_Tree/Oct_Tree-GLFW/OctTreeManager.cpp:53-93 | With matched z faces, the query from the root for a collider of positive extents strictly inside the root names its Home. |
| OctPlacement.PushKeeps | Oct_Tree/Oct_Tree-GLFW/OctTreeManager.cpp:141-147 | Pushing a shape onto its Home, when that node is not a full childless node above the depth limit, keeps the invariant (index, tiling, active tree, only active nodes hold shapes, capacity, every shape in its Home) and adds the shape to the stored multiset. |
| OctPlacement.SplitKeeps | Oct_Tree/Oct_Tree-GLFW/OctTreeManager.cpp:129-132 | Splitting an active childless node above the depth limit keeps the invariant, leaves it active with children and takes exactly its shapes out of the stored multiset. |
| OctPlacement.WalkAt | Oct_Tree/Oct_Tree-GLFW/OctTreeManager.cpp:95-155 | With matched z faces, the walk from any active slot on a shape's way down that strictly contains it keeps the invariant and adds exactly that shape to the stored multiset. |
| OctPlacement.SubdivideAt | Oct_Tree/Oct_Tree-GLFW/OctTreeManager.cpp:127-138 | With matched z faces, the subdivision with the re-insertion of the node's shapes keeps the invariant and the stored multiset, and leaves the node with children. |
| OctPlacement.WalkAdds | Oct_Tree/Oct_Tree-GLFW/OctTreeManager.cpp:95-155 | The same as WalkAt, stated for every vector as an implication. |
| OctPlacement.SubdivisionKeeps | Oct_Tree/Oct_Tree-GLFW/OctTreeManager.cpp:127-138 | The same as SubdivideAt, stated for every vector as an implication. |
| OctPlacement.RootWalks | Oct_Tree/Oct_Tree-GLFW/OctTreeManager.cpp:31-35 | With matched z faces, adding a list of placeable shapes from the root keeps the invariant and adds exactly the list to the stored multiset. |
| OctPlacement.RestartKeeps | Oct_Tree/Oct_Tree-GLFW/OctTreeManager.cpp:27-30 | When the active part hangs from the root and inactive nodes are empty, ResetTree and the root's activation leave only the root active, childless, nothing stored, and the invariant holding. |
| OctPlacement.HeldStraddles | Oct_Tree/Oct_Tree-GLFW/OctTreeManager.cpp:125-139 | Under the invariant, a node with children holds only shapes that no octant child strictly contains, and the first child they are not missed by reads them as partial. |
| OctPlacement.HeldFound | Oct_Tree/Oct_Tree-GLFW/OctTreeManager.cpp:53-93 | Under the invariant, the query with matched z faces for the collider of a stored shape names the slot whose list holds it. |
| OctPlacement.AllStraddling | Oct_Tree/Oct_Tree-GLFW/OctTreeManager.cpp:125-138 | Under the invariant, every node with children holds only straddling shapes. |
| OctPlacement.AllFound | Oct_Tree/Oct_Tree-GLFW/OctTreeManager.cpp:53-93 | Under the invariant, when the stored multiset is that of a list, the query for each listed shape names a list that holds it. |
| OctPlacement.RebuildPlaces | Oct_Tree/Oct_Tree-GLFW/OctTreeManager.cpp:27-36 | With matched z faces, after UpdateOctTree over shapes of positive extents strictly inside the root: every shape is stored as often as it is registered and nowhere else, the query for it names a list holding it, capacity holds, nodes with children hold only straddlers, and the active part again hangs from the root with inactive nodes empty, so the next frame's ResetTree clears it all. |
| OctPlacement.CentredFallsOff | Oct_Tree/Oct_Tree-GLFW/OctTreeManager.cpp:98-107 | With the source's test, on a depth-1 vector over the unit cube, the walk of the centred cube from any child slot stores it nowhere and the query from there runs off the vector. |
| OctPlacement.AsWrittenRebuild | Oct_Tree/Oct_Tree-GLFW/OctTreeManager.cpp:27-36 | With the source's test, rebuilding a fresh depth-1 unit-cube tree (one shape per node) with a small cube in the first octant and then the centred cube splits the root, puts the small cube in the first child and stores the centred cube nowhere. |
| OctPlacement.CentredShapeLost | Oct_Tree/Oct_Tree-GLFW/OctTreeManager.cpp:157-176 | The same rebuild with the source's test: no list holds the centred cube and its query returns None. With matched z faces, both shapes are stored once and each query names a list holding its shape. |
| OctManager.OctTreeManager.InitNode | Oct_Tree/Oct_Tree-GLFW/OctTreeManager.cpp:195-232 | The record has its children block at GetDepthIndex(depth) + childNum * 8, the given parent, depth and box, and it is inactive, childless and empty. |
| OctManager.OctTreeManager.ChildNodes | Oct_Tree/Oct_Tree-GLFW/OctTreeManager.cpp:180-192 | The eight records of InitChildren, one for each octant of the parent's box. |
| OctManager.OctTreeManager.InitChildren | Oct_Tree/Oct_Tree-GLFW/OctTreeManager.cpp:178-193 | Exactly slots 8i + 1 .. 8i + 8 change, and they form the fresh block of slot i. |
| OctManager.OctTreeManager.InitOctTree | Oct_Tree/Oct_Tree-GLFW/OctTreeManager.cpp:13-25 | The vector has GetDepthIndex(maxDepth) slots and every slot is laid out below the given box. Nothing is active or stored, so the first frame's ResetTree starts from a vector whose active part hangs from the root. |
| OctManager.OctTreeManager.AddShape | Oct_Tree/Oct_Tree-GLFW/OctTreeManager.cpp:38-41 | The shape is appended to the registry and nothing else changes. |
| OctManager.OctTreeManager.ActivateChildren | Oct_Tree/Oct_Tree-GLFW/OctTreeManager.cpp:234-245 | The vector becomes ChildrenActivated of the old one. |
| OctManager.OctTreeManager.PushShapeOnto | Oct_Tree/Oct_Tree-GLFW/OctTreeManager.cpp:145 | The shape is appended to slot k's list. |
| OctManager.OctTreeManager.AddShapeFrom | Oct_Tree/Oct_Tree-GLFW/OctTreeManager.cpp:95-155 | The loop leaves exactly Insert of the old vector from startingNode. With matched z faces, when the invariant held and the shape is placeable and on its way down at startingNode, the invariant still holds and the shape has been added to the stored multiset. |
| OctManager.OctTreeManager.Subdivide | Oct_Tree/Oct_Tree-GLFW/OctTreeManager.cpp:127-138 | The vector becomes Subdivided of the old one at slot k. With matched z faces, from an active childless node under the invariant, the invariant and the stored multiset are kept and the node has children. |
| OctManager.OctTreeManager.ResetTree | Oct_Tree/Oct_Tree-GLFW/OctTreeManager.cpp:247-276 | The stack loop leaves exactly Swept of the old vector. |
| OctManager.OctTreeManager.UpdateOctTree | Oct_Tree/Oct_Tree-GLFW/OctTreeManager.cpp:27-36 | The vector is Restarted and then has every registered shape added from the root, in order. With matched z faces, from a vector whose active part hangs from the root and whose registered shapes are placeable, the result is what RebuildPlaces states, including that the active part again hangs from the root. |
| OctManager.OctTreeManager.GetNearbyShapes | Oct_Tree/Oct_Tree-GLFW/OctTreeManager.cpp:53-93 | The result is the list of the slot QueryFrom names, or None where the loop falls off. With matched z faces, for a placeable collider on an active tree, it is the list of the collider's Home. |
| KDTree.GetDepthIndex | K-D_Tree/K-D_Tree-GLFW/KDTreeManager.cpp:281-290 | The result is 1 + 2 + ... + 2^depth, and 1 for a negative depth. |
| KDNodes.DepthIndexClosedForm | K-D_Tree/K-D_Tree-GLFW/KDTreeManager.cpp:281-290 | A tree of depth d has 2^(d + 1) - 1 slots. |
| KDNodes.ParentOf | K-D_Tree/K-D_Tree-GLFW/KDTreeManager.cpp:32-41 | An odd slot is the left child of its parent, and an even slot other than 0 is the right child. |
| KDNodes.SlotInLevel | K-D_Tree/K-D_Tree-GLFW/KDTreeManager.cpp:45-50 | Every slot lies in the level of its depth. |
| KDNodes.ChildrenInTree | K-D_Tree/K-D_Tree-GLFW/KDTreeManager.cpp:20 | A node's children lie inside the vector exactly when the node lies above the last level. |
| KDNodes.FreshSlot | K-D_Tree/K-D_Tree-GLFW/KDTreeManager.cpp:43-50 | The record pushed for slot k names index k, its depth, its offset within its level and its parent. The construction arithmetic lands every node in its heap slot. |
| KDNodes.ChildSlot | K-D_Tree/K-D_Tree-GLFW/KDTreeManager.cpp:45-50 | The records pushed for the children of slot p land in slots 2p + 1 and 2p + 2, one level down. |
| KDNodes.FreshSide | K-D_Tree/K-D_Tree-GLFW/KDTreeManager.cpp:48-50 | The pushed record of slot k hangs on the side the slot lies on, and its axis is x at even depths and y at odd ones. |
| KDNodes.FreshBlank | K-D_Tree/K-D_Tree-GLFW/KDTreeManager.cpp:168-189 | A pushed record is inactive, unlinked, with split value 0 and range 0 .. 0. |
| KDNodes.LayoutPlan | K-D_Tree/K-D_Tree-GLFW/KDTreeManager.cpp:14-53 | The planned vector already has its construction shape. |
| KDNodes.LayoutSlot | K-D_Tree/K-D_Tree-GLFW/KDTreeManager.cpp:30-50 | In a vector of construction shape, slot k holds index k, its depth, axis and parent, and links to 2k + 1 and 2k + 2 exactly above the last level. |
| KDBuild.BuildStart | K-D_Tree/K-D_Tree-GLFW/KDTreeManager.cpp:22-23 | The loop starts with the root pending and nothing popped. |
| KDBuild.FreshAllPop | K-D_Tree/K-D_Tree-GLFW/KDTreeManager.cpp:27-28 | The top of the stack is the fresh record of the last pending slot. |
| KDBuild.PushedRecords | K-D_Tree/K-D_Tree-GLFW/KDTreeManager.cpp:43-51 | The stack after the pushes is the fresh records of the pending slots followed by the two children, when above the last level. |
| KDBuild.StepPopped | K-D_Tree/K-D_Tree-GLFW/KDTreeManager.cpp:30-42 | Popping stores the fresh record and links it into its parent. |
| KDBuild.BuildStep | K-D_Tree/K-D_Tree-GLFW/KDTreeManager.cpp:25-51 | One iteration keeps the construction state: popped slots, pending slots, parents popped, children reached. |
| KDBuild.PendingShrinks | K-D_Tree/K-D_Tree-GLFW/KDTreeManager.cpp:25-28 | Each pop strictly shrinks the set of unpopped slots. |
| KDBuild.AllPopped | K-D_Tree/K-D_Tree-GLFW/KDTreeManager.cpp:25 | Once the stack is empty, every slot has been popped. |
| KDBuild.BuildDone | K-D_Tree/K-D_Tree-GLFW/KDTreeManager.cpp:25-52 | Once the stack is empty, the vector is exactly the plan. |
| KDTree.KDTreeManager.InitNode | K-D_Tree/K-D_Tree-GLFW/KDTreeManager.cpp:168-189 | The record is inactive, unlinked, with split value 0, range 0 .. 0 and the given fields. |
| KDTree.KDTreeManager.InitKDTree | K-D_Tree/K-D_Tree-GLFW/KDTreeManager.cpp:14-53 | The vector is exactly Plan(maxDepth), and both depths equal maxDepth. |
| KDTree.KDTreeManager.BuildNodes | K-D_Tree/K-D_Tree-GLFW/KDTreeManager.cpp:22-52 | The stack loop leaves exactly Plan(maxDepth). |
| KDTree.KDTreeManager.PushChildren | K-D_Tree/K-D_Tree-GLFW/KDTreeManager.cpp:43-51 | The left and then the right child record are pushed. |
| KDTree.KDTreeManager.StoreNode | K-D_Tree/K-D_Tree-GLFW/KDTreeManager.cpp:30-42 | The vector becomes AfterPop: the record is stored and the parent's link is set on its side. |
| Sorting.SwapMultiset | K-D_Tree/K-D_Tree-GLFW/KDTreeManager.cpp:67-69 | Exchanging neighbours keeps the elements. |
| Sorting.SwapInversions | K-D_Tree/K-D_Tree-GLFW/KDTreeManager.cpp:65-70 | Exchanging an inverted pair removes exactly one inversion, which makes BubbleSort terminate. |
| Sorting.CountBelowSwap | K-D_Tree/K-D_Tree-GLFW/KDTreeManager.cpp:67-69 | Exchanging neighbours keeps the count of keys below any element. |
| Sorting.ExchangeStep | K-D_Tree/K-D_Tree-GLFW/KDTreeManager.cpp:62-78 | An exchange inside the range keeps the elements and the outside, and removes one inversion. |
| Sorting.SwapOutside | K-D_Tree/K-D_Tree-GLFW/KDTreeManager.cpp:62 | An exchange of a pair inside start .. end leaves everything outside the range unchanged. |
| Sorting.AdjacentToSorted | K-D_Tree/K-D_Tree-GLFW/KDTreeManager.cpp:58-60 | A pass with no exchange, where all neighbours are in order, means the range is sorted. |
| Sorting.SliceElements | K-D_Tree/K-D_Tree-GLFW/KDTreeManager.cpp:110 | The elements inside a range are all of them minus those before and after it. |
| Sorting.PermutedInside | K-D_Tree/K-D_Tree-GLFW/KDTreeManager.cpp:110 | A sort of a range that keeps the outside keeps the elements inside the range. |
| Sorting.FromInside | K-D_Tree/K-D_Tree-GLFW/KDTreeManager.cpp:110 | Every shape the sort places inside the range came from inside it. |
| Sorting.SwapKeyRun | K-D_Tree/K-D_Tree-GLFW/KDTreeManager.cpp:62-70 | Exchanging neighbours with different keys keeps, for every key value, the order of the shapes with that key. |
| Sorting.RunsInside | K-D_Tree/K-D_Tree-GLFW/KDTreeManager.cpp:55-81 | A stable rearrangement that keeps the outside of a range keeps the order of the shapes of every key inside the range. |
| KDTree.BubbleSort | K-D_Tree/K-D_Tree-GLFW/KDTreeManager.cpp:55-81 | The result is a permutation of the vector, unchanged outside start .. end, sorted inside by the axis coordinate, and stable: the shapes of every key value keep their order, since only strictly greater neighbours are exchanged. |
| KDTree.BubblePass | K-D_Tree/K-D_Tree-GLFW/KDTreeManager.cpp:60-79 | One pass keeps the elements, the outside and the order of equal keys. With no exchange the vector is unchanged and in order; otherwise inversions strictly drop. |
| KDTree.Exchange | K-D_Tree/K-D_Tree-GLFW/KDTreeManager.cpp:67-69 | The three assignments through a temporary exchange neighbours i and i + 1. |
| KDSplit.MidInside | K-D_Tree/K-D_Tree-GLFW/KDTreeManager.cpp:113-117 | The truncating median of a non-empty range lies in it, and strictly inside exactly when the range holds at least three slots. |
| KDSplit.DeactivatedLayout | K-D_Tree/K-D_Tree-GLFW/KDTreeManager.cpp:85-89 | The deactivation loop keeps the construction shape and leaves no node active. |
| KDSplit.VisitLayout | K-D_Tree/K-D_Tree-GLFW/KDTreeManager.cpp:107-115 | Visiting a node keeps the construction shape. |
| KDSplit.RebuildStart | K-D_Tree/K-D_Tree-GLFW/KDTreeManager.cpp:91-96 | With the root frame covering the whole vector pending, the loop state holds. |
| KDSplit.PlacedApart | K-D_Tree/K-D_Tree-GLFW/KDTreeManager.cpp:110 | A split whose range the sort does not touch survives the sort. |
| KDSplit.PlacedWithin | K-D_Tree/K-D_Tree-GLFW/KDTreeManager.cpp:110 | A split survives a sort inside one of its sides. |
| KDSplit.PlacedVisited | K-D_Tree/K-D_Tree-GLFW/KDTreeManager.cpp:107-115 | The node just visited has split its range around its median value. |
| KDSplit.PushedInside | K-D_Tree/K-D_Tree-GLFW/KDTreeManager.cpp:117-126 | The pushed halves lie inside the node's range, apart from each other and from the median. |
| KDSplit.TopFrame | K-D_Tree/K-D_Tree-GLFW/KDTreeManager.cpp:100-105 | The top frame names an unpopped slot with a non-empty range inside the vector. |
| KDSplit.RebuildStep | K-D_Tree/K-D_Tree-GLFW/KDTreeManager.cpp:98-127 | One iteration keeps the loop state: popped nodes active, placed and linked; pending frames well formed, disjoint, inside their parent's half; children of pushing nodes reached. |
| KDSplit.RebuildDone | K-D_Tree/K-D_Tree-GLFW/KDTreeManager.cpp:98-127 | When no frame is pending, the state is Rebuilt: the root covers the vector, a node is active iff its parent is active and pushes, it then holds its half, and every active node has split its range. |
| KDTree.KDTreeManager.UpdateKDtree | K-D_Tree/K-D_Tree-GLFW/KDTreeManager.cpp:83-129 | The shape vector is permuted, and the node vector is Rebuilt from the deactivated one. |
| KDTree.KDTreeManager.SplitStep | K-D_Tree/K-D_Tree-GLFW/KDTreeManager.cpp:100-126 | The top frame is popped, its range sorted, its node visited with the median value, and its halves pushed when it splits. |
| KDTree.KDTreeManager.VisitFrame | K-D_Tree/K-D_Tree-GLFW/KDTreeManager.cpp:107-115 | The range is stored and sorted along the node's axis, and the node is activated with the median shape's coordinate. |
| KDTree.PushHalves | K-D_Tree/K-D_Tree-GLFW/KDTreeManager.cpp:117-126 | The three stacks gain the left half, then the right half. |
| KDTree.KDTreeManager.DeactivateAll | K-D_Tree/K-D_Tree-GLFW/KDTreeManager.cpp:85-89 | Every node is deactivated. |
| KDTree.KDTreeManager.DeactivateNode | K-D_Tree/K-D_Tree-GLFW/KDTreeManager.cpp:191-196 | The node is inactive with split value 0, and nothing else changes. |
| KDTree.KDTreeManager.ActivateNode | K-D_Tree/K-D_Tree-GLFW/KDTreeManager.cpp:198-200 | The node is active with the given split value, and nothing else changes. |
| KDTree.KDTreeManager.AddShape | K-D_Tree/K-D_Tree-GLFW/KDTreeManager.cpp:131-134 | The shape is appended, and the tree is left as it is. |
| KDTree.KDTreeManager.SetMaxDepth | K-D_Tree/K-D_Tree-GLFW/KDTreeManager.cpp:292-299 | A depth that is not negative, differs from the current one and does not exceed the built depth is taken, and the tree is rebuilt. Otherwise nothing changes. |
| KDQuery.LayoutLinks | K-D_Tree/K-D_Tree-GLFW/KDTreeManager.cpp:153-154 | Every node above any split depth up to the built one links to its children, which are inside the vector. |
| KDQuery.Descent | K-D_Tree/K-D_Tree-GLFW/KDTreeManager.cpp:149-154 | The slots the query visits: each moves on to the child on the query's side of the split, and the last one does not move on. |
| KDQuery.DescentStep | K-D_Tree/K-D_Tree-GLFW/KDTreeManager.cpp:153-154 | Moving on keeps the slot where the descent stops. |
| KDQuery.Gather | K-D_Tree/K-D_Tree-GLFW/KDTreeManager.cpp:157-163 | The copy yields end - start + 1 shapes starting from position start. None means a negative count or a read outside the vector. |
| KDTree.KDTreeManager.CopyRange | K-D_Tree/K-D_Tree-GLFW/KDTreeManager.cpp:157-163 | The copying loop returns exactly Gather of the range. |
| KDTree.KDTreeManager.GetNearbyShapes | K-D_Tree/K-D_Tree-GLFW/KDTreeManager.cpp:146-166 | The result is the range of the node where the descent from the root stops. |
| KDQuery.ActiveDescent | K-D_Tree/K-D_Tree-GLFW/KDTreeManager.cpp:153-154 | The corrected descent, which moves on only into an active child. |
| KDQuery.ActiveDescentSide | K-D_Tree/K-D_Tree-GLFW/KDTreeManager.cpp:149-163 | On a rebuilt vector, the corrected descent from an active slot stops at an active node whose range lies within the slot's range and on the query's side of every split passed. |
| KDQuery.SplitSide | K-D_Tree/K-D_Tree-GLFW/KDTreeManager.cpp:153-154 | The child range the query moves into lies on the query's side of the split. |
| KDQuery.ActiveNearbyRebuilt | K-D_Tree/K-D_Tree-GLFW/KDTreeManager.cpp:146-166 | On a rebuilt vector, the corrected query answers with a non-empty range of an active node, on the query's side of every split passed. |
| KDQuery.DescentAnswer | K-D_Tree/K-D_Tree-GLFW/KDTreeManager.cpp:157-163 | A corrected descent that stops at an active node with an in-vector range answers with that range. |
| KDTree.KDTreeManager.GetActiveNearbyShapes | K-D_Tree/K-D_Tree-GLFW/KDTreeManager.cpp:146-166 | The corrected loop returns exactly ActiveNearby. |
| KDQuery.LineTreeRebuilt | K-D_Tree/K-D_Tree-GLFW/KDTreeManager.cpp:83-127 | The depth-2 vector over three shapes on a line is a rebuilt state. |
| KDQuery.StaleSlotQuery | K-D_Tree/K-D_Tree-GLFW/KDTreeManager.cpp:146-166 | On that rebuilt vector, the query at (2, 5) descends into deactivated slot 6 and answers shape 0, which lies left of the root's split. The corrected query answers shape 2. |

## Left out

- Rendering: outlines, dividers, lineStart/lineEnd and the divider geometry of the K-D ActivateNode (KDTreeManager.cpp:201-277) are not part of this model. They only place on-screen markers.
- DumpData of all three managers is left out: it only frees the node records at shutdown.
- Input, main and the demo scenes are not part of this model.
- Shapes are ids. Their collider or position during one rebuild is a function parameter, because they belong to the interactive shapes, which are outside the index.
- Floats are modelled as exact reals. Rounding and NaN are not modelled.
- The `powf` loops of GetDepthIndex are modelled as exact integer sums. The float sum equals the integer one while it stays below 2^24.
- Object identity: nodes held by address become slots of a vector of records, and shapes become ids.
- The quad and oct GetNearbyShapes fall off the end of a function that returns a reference when no node answers. This is undefined behaviour, modelled as None.
- The K-D GetNearbyShapes copies out of the shape vector with no bounds check. A negative count, or a read outside the vector, is modelled as None.
- KDTree.KDTreeManager.UpdateKDtree: requires a non-empty shape vector. With no shapes the root frame is 0 .. -1, and the median read `_shapes[0]` is out of range.
- KDTree.KDTreeManager.SetMaxDepth: requires a non-empty shape vector when the new depth is taken, because that case calls UpdateKDtree.
- KDTree.BubbleSort: requires a start that is not negative whenever the pass loop would run. A negative start reads before the vector.
- QuadTree.Insert: states only that the layout is kept. A recursive ghost function's ensures must hold on every vector, while placement and capacity hold only under the invariant; QuadPlacement.WalkAt states them.
- QuadTree.InsertAll: states only that the layout is kept, for the same reason; QuadPlacement.RootWalks and QuadPlacement.RebuildPlaces state capacity and containment.
- QuadTree.Subdivided: states only that the layout is kept, for the same reason; QuadPlacement.SubdivideAt and QuadPlacement.HeldStraddles state what the node keeps.
- QuadTree.QueryFrom: states only that a named slot is inside the vector, for the same reason; QuadPlacement.QueryFindsHome and QuadPlacement.HeldFound state which slot it names.
- OctTree.Insert: states only that the layout is kept, as for the quad tree; OctPlacement.WalkAt states placement with matched z faces, and with the source's test it is false (see Findings).
- OctTree.InsertAll: states only that the layout is kept; OctPlacement.RebuildPlaces states capacity and containment with matched z faces.
- OctTree.Subdivided: states only that the layout is kept; OctPlacement.SubdivideAt and OctPlacement.HeldStraddles state what the node keeps, with matched z faces.
- OctTree.QueryFrom: states only that a named slot is inside the vector; OctPlacement.QueryFindsHome and OctPlacement.HeldFound state which slot it names, with matched z faces.
- OctManager.OctTreeManager.AddShapeFrom: placement, capacity and containment are stated only for `matchedZ`. With the source's test a rebuild can lose a shape (OctPlacement.CentredShapeLost).
- OctManager.OctTreeManager.Subdivide: placement, capacity and containment are stated only for `matchedZ`. With the source's test a rebuild can lose a shape (OctPlacement.CentredShapeLost).
- OctManager.OctTreeManager.UpdateOctTree: placement, capacity and containment are stated only for `matchedZ`. With the source's test a rebuild can lose a shape (OctPlacement.CentredShapeLost).
- OctManager.OctTreeManager.GetNearbyShapes: placement, capacity and containment are stated only for `matchedZ`. With the source's test a rebuild can lose a shape (OctPlacement.CentredShapeLost).
- QuadPlacement and OctPlacement: placement is proved only for shapes of positive extent strictly inside the root. A shape on or outside the root's edge reads as a root partial hit, which the source treats as a full hit. Where such a shape ends up is not stated.
- CheckShapeNodeCollide (quad and oct): the unqualified `abs` on float differences (QuadTreeManager.cpp:188, OctTreeManager.cpp:173) is read as the floating-point overload. An integer `abs` would truncate the differences and change the classification.
- KDTree.KDTreeManager.InitKDTree: takes maxDepth as a natural number, where the source takes an `int`. For a negative depth the source's build loop never meets `depth == _maxDepth` and writes past the one-slot vector it allocated, which is undefined behaviour.
- The maxDepth accessor (KDTreeManager.cpp:301-304) is `KDTree.KDTreeManager.MaxDepth`, a plain field read with no contract of its own.

## Findings

| source | as written | input that shows it | evidently intended | confidence | as-written member | corrected member |
|---|---|---|---|---|---|---|
| K-D_Tree/K-D_Tree-GLFW/KDTreeManager.cpp:153-154 | The query moves on into a child of any node above the split depth, even a child the last rebuild left inactive. The inactive child's range 0 .. 0 (or a stale one from an earlier frame) is then copied out. | Build with maxDepth 2 and rebuild with shapes 0, 1, 2 at x = 0, 1, 2 on y = 0. The root splits at x = 1, and its right child holds shape 2 and does not split. The query at (2, 5) moves through the right child into inactive slot 6 and returns [shape 0], which lies on the other side of the root's split. | Stop at a node whose child on the query's side is inactive, and return that node's range ([shape 2]). | not executed; the counterexample is proved on the model | KDQuery.StaleSlotQuery | KDQuery.ActiveNearbyRebuilt |
| Oct_Tree/Oct_Tree-GLFW/OctTreeManager.cpp:168-174 | The front-face difference uses the collider's back (z - depth/2) and the back-face difference its front (z + depth/2). A shape that reaches across the middle z plane and the middle x or y plane of a subdivided node is then a miss for all eight children, so AddShape walks on past them and the shape is stored nowhere; GetNearbyShapes for it falls off the vector. | A fresh depth-1 tree over the unit cube with one shape per node. Rebuild with a cube of side 0.2 at (0.25, 0.75, 0.75), then a cube of side 0.2 at the centre. The second shape finds the root full, so the root subdivides and the first cube moves to child 1. The centred cube then misses all eight children and is lost. | Measure the front face from the collider's front and the back face from its back, as the x and y terms do. Then both cubes are stored and found. | not executed; the counterexample is proved on the model | OctPlacement.CentredShapeLost | OctPlacement.RebuildPlaces |
