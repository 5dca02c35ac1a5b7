/** The oct tree manager: a complete 8-ary tree over axis-aligned boxes, built
    in full at start-up in one vector, cleared each frame by a stack traversal
    of the active part and re-filled by the same index walk as the quad tree. */
module OctTree {
  import opened DepthSums
  import opened Geometry
  import opened Wrappers

  /** One slot of the node vector. The outline render handle is not modelled. */
  datatype OctTreeNode = OctTreeNode(
    shapes: seq<nat>,
    children: seq<int>,
    parent: int,
    active: bool,
    hasChildren: bool,
    depth: nat,
    left: real,
    right: real,
    top: real,
    bottom: real,
    front: real,
    back: real)

  /** The manager's limits: the depth of the tree and the shapes a node holds
      before it subdivides. */
  datatype Config = Config(maxDepth: nat, maxPerNode: nat)

  datatype Box = Box(left: real, right: real, top: real, bottom: real, front: real, back: real)

  function BoxOf(n: OctTreeNode): Box
  {
    Box(n.left, n.right, n.top, n.bottom, n.front, n.back)
  }

  // ---------------------------------------------------------------------------
  // Index arithmetic of the breadth-first layout

  /** The eight consecutive slots of a children block. */
  function ChildBlock(first: int): seq<int>
  {
    seq(8, j => first + j)
  }

  /** The slot of a node's parent; the root is its own parent. */
  function Parent(k: nat): nat
  {
    if k == 0 then 0 else (k - 1) / 8
  }

  /** Which of its parent's eight children the node in slot k is. */
  function ChildSlot(k: nat): nat
    requires k > 0
  {
    (k - 1) % 8
  }

  /** The depth of the node in slot k. */
  function DepthOf(k: nat): nat
    decreases k
  {
    if k == 0 then 0 else DepthOf(Parent(k)) + 1
  }

  /** The slots of depth d are LevelSum(8, d - 1) .. LevelSum(8, d) - 1. */
  lemma {:induction false} DepthOfBlock(k: nat, d: nat)
    requires LevelSum(8, d - 1) <= k < LevelSum(8, d)
    ensures DepthOf(k) == d
    decreases k
  {
    if k > 0 && d > 0 {
      LevelSumNext(8, d - 1);
      LevelSumNext(8, d);
      DepthOfBlock(Parent(k), d - 1);
    }
  }

  /** Slot k lies in the block of its own depth. */
  lemma {:induction false} SlotInBlock(k: nat)
    ensures LevelSum(8, DepthOf(k) - 1) <= k < LevelSum(8, DepthOf(k))
    decreases k
  {
    if k > 0 {
      SlotInBlock(Parent(k));
      LevelSumNext(8, DepthOf(k) - 1);
      LevelSumNext(8, DepthOf(k));
    }
  }

  /** The node with sibling offset c at depth d sits in slot GetDepthIndex(d - 1) + c;
      its children sit at GetDepthIndex(d) + 8c .. + 7. Each child is in the
      depth-(d+1) block, lies after the node, and has the node as parent. */
  lemma BlockLayout(d: nat, c: nat, j: nat)
    requires c < Pow(8, d) && j < 8
    ensures var k := LevelSum(8, d - 1) + c;
            var child := LevelSum(8, d) + 8 * c + j;
            && child == 8 * k + 1 + j
            && k < child
            && Parent(child) == k && ChildSlot(child) == j
            && DepthOf(k) == d && DepthOf(child) == d + 1
            && LevelSum(8, d) <= child < LevelSum(8, d + 1)
  {
    var k := LevelSum(8, d - 1) + c;
    LevelSumNext(8, d);
    LevelSumNext(8, d + 1);
    assert LevelSum(8, d) == LevelSum(8, d - 1) + Pow(8, d);
    DepthOfBlock(k, d);
    DepthOfBlock(LevelSum(8, d) + 8 * c + j, d + 1);
  }

  /** The children blocks of the eight children InitChildren creates below slot k. */
  lemma ChildBlocksOf(k: nat, d: nat, childNum: int)
    requires childNum == 8 * k + 1 - LevelSum(8, d)
    ensures LevelSum(8, d + 1) + childNum * 8 == 8 * (8 * k + 1) + 1
    ensures LevelSum(8, d + 1) + (childNum + 1) * 8 == 8 * (8 * k + 2) + 1
    ensures LevelSum(8, d + 1) + (childNum + 2) * 8 == 8 * (8 * k + 3) + 1
    ensures LevelSum(8, d + 1) + (childNum + 3) * 8 == 8 * (8 * k + 4) + 1
    ensures LevelSum(8, d + 1) + (childNum + 4) * 8 == 8 * (8 * k + 5) + 1
    ensures LevelSum(8, d + 1) + (childNum + 5) * 8 == 8 * (8 * k + 6) + 1
    ensures LevelSum(8, d + 1) + (childNum + 6) * 8 == 8 * (8 * k + 7) + 1
    ensures LevelSum(8, d + 1) + (childNum + 7) * 8 == 8 * (8 * k + 8) + 1
  {
    LevelSumNext(8, d + 1);
  }

  /** The tree of depth maxDepth has GetDepthIndex(maxDepth) slots, and the
      children of every node above the last level lie inside it. */
  lemma ChildrenInTree(k: nat, maxDepth: nat)
    requires k < LevelSum(8, maxDepth) && DepthOf(k) < maxDepth
    ensures 8 * k + 8 < LevelSum(8, maxDepth)
  {
    SlotInBlock(k);
    LevelSumMonotone(8, DepthOf(k), maxDepth - 1);
    LevelSumNext(8, maxDepth);
  }

  /** The counting loop of GetDepthIndex: the sum of 8^i for i = 0..depth. */
  method GetDepthIndex(depth: int) returns (ret: int)
    ensures ret == LevelSum(8, depth)
  {
    var retf := 0;
    var i := 0;
    while i <= depth
      invariant 0 <= i
      invariant depth >= 0 ==> i <= depth + 1
      invariant depth < 0 ==> i == 0
      invariant retf == LevelSum(8, i - 1)
      decreases depth - i
    {
      retf := retf + Pow(8, i);
      i := i + 1;
    }
    ret := retf;
  }

  // ---------------------------------------------------------------------------
  // Classification of a collider against a node

  /** The first summand of the source's test. On x and y every face of the
      collider is less than the node's span away from the same face of the
      node; on z the node's front is compared with the collider's low face
      and the node's back with its high face. */
  predicate FacesNear(col: Collider, node: OctTreeNode)
  {
    var height := node.top - node.bottom;
    var width := node.right - node.left;
    var depth := node.front - node.back;
    && Abs(node.top - HighY(col)) < height
    && Abs(node.bottom - LowY(col)) < height
    && Abs(node.right - HighX(col)) < width
    && Abs(node.left - LowX(col)) < width
    && Abs(node.front - LowZ(col)) < depth
    && Abs(node.back - HighZ(col)) < depth
  }

  /** The second summand: strictly inside on x and y, overlapping on z. */
  predicate InsideOrOverlapping(col: Collider, node: OctTreeNode)
  {
    && node.top - HighY(col) > 0.0
    && node.bottom - LowY(col) < 0.0
    && node.right - HighX(col) > 0.0
    && node.left - LowX(col) < 0.0
    && node.front - LowZ(col) > 0.0
    && node.back - HighZ(col) < 0.0
  }

  /** 0 = no collision, 1 = partial collision, 2 = full collision. */
  function CheckShapeNodeCollide(col: Collider, node: OctTreeNode): (colStatus: int)
    ensures 0 <= colStatus <= 2
    ensures colStatus == 2 <==> FacesNear(col, node) && InsideOrOverlapping(col, node)
    ensures colStatus == 0 <==> !FacesNear(col, node) && !InsideOrOverlapping(col, node)
  {
    var dTop := node.top - (col.y + col.height / 2.0);
    var dBot := node.bottom - (col.y - col.height / 2.0);
    var dLeft := node.left - (col.x - col.width / 2.0);
    var dRight := node.right - (col.x + col.width / 2.0);
    var dFront := node.front - (col.z - col.depth / 2.0);
    var dBack := node.back - (col.z + col.depth / 2.0);
    var width := node.right - node.left;
    var height := node.top - node.bottom;
    var depth := node.front - node.back;
    (if Abs(dTop) < height && Abs(dBot) < height && Abs(dRight) < width && Abs(dLeft) < width
        && Abs(dFront) < depth && Abs(dBack) < depth then 1 else 0)
    + (if dTop > 0.0 && dBot < 0.0 && dRight > 0.0 && dLeft < 0.0 && dFront > 0.0 && dBack < 0.0
       then 1 else 0)
  }

  predicate StrictlyInside(col: Collider, b: Box)
  {
    && b.left < LowX(col) && HighX(col) < b.right
    && b.bottom < LowY(col) && HighY(col) < b.top
    && b.back < LowZ(col) && HighZ(col) < b.front
  }

  /** For a collider with non-negative extents a full result still means
      strict containment on all three axes: the first summand's z part puts
      both z faces of the collider strictly between back and front. */
  lemma FullMeansInside(col: Collider, node: OctTreeNode)
    requires col.width >= 0.0 && col.height >= 0.0 && col.depth >= 0.0
    ensures CheckShapeNodeCollide(col, node) == 2 <==> StrictlyInside(col, BoxOf(node))
  {
  }

  /** The second summand's z part is an overlap test of the two z ranges, not
      a containment test; the two agree for a collider without z extent. */
  lemma ZTestIsOverlap(col: Collider, node: OctTreeNode)
    requires col.depth >= 0.0
    ensures (node.front - LowZ(col) > 0.0 && node.back - HighZ(col) < 0.0)
            <==> (LowZ(col) < node.front && node.back < HighZ(col))
    ensures col.depth == 0.0 ==>
              ((LowZ(col) < node.front && node.back < HighZ(col))
               <==> (node.back < LowZ(col) && HighZ(col) < node.front))
  {
  }

  /** A collider that encloses a node on z, while lying strictly inside it on
      x and y, reads as a partial collision rather than none. */
  lemma EnclosingOnZIsPartial(col: Collider, node: OctTreeNode)
    requires col.width >= 0.0 && col.height >= 0.0 && node.back < node.front
    requires node.left < LowX(col) && HighX(col) < node.right
    requires node.bottom < LowY(col) && HighY(col) < node.top
    requires LowZ(col) < node.back && node.front < HighZ(col)
    ensures CheckShapeNodeCollide(col, node) == 1
  {
  }

  /** The test with matching z faces, as the x and y parts of the source's
      test already compare them: the node's front with the collider's high
      face and the node's back with its low face. Its second summand is then
      strict containment on z, and a full result means strict containment. */
  function CheckMatchedCollide(col: Collider, node: OctTreeNode): (colStatus: int)
    ensures 0 <= colStatus <= 2
    ensures col.width >= 0.0 && col.height >= 0.0 && col.depth >= 0.0 ==>
              (colStatus == 2 <==> StrictlyInside(col, BoxOf(node)))
  {
    var dTop := node.top - (col.y + col.height / 2.0);
    var dBot := node.bottom - (col.y - col.height / 2.0);
    var dLeft := node.left - (col.x - col.width / 2.0);
    var dRight := node.right - (col.x + col.width / 2.0);
    var dFront := node.front - (col.z + col.depth / 2.0);
    var dBack := node.back - (col.z - col.depth / 2.0);
    var width := node.right - node.left;
    var height := node.top - node.bottom;
    var depth := node.front - node.back;
    (if Abs(dTop) < height && Abs(dBot) < height && Abs(dRight) < width && Abs(dLeft) < width
        && Abs(dFront) < depth && Abs(dBack) < depth then 1 else 0)
    + (if dTop > 0.0 && dBot < 0.0 && dRight > 0.0 && dLeft < 0.0 && dFront > 0.0 && dBack < 0.0
       then 1 else 0)
  }

  /** The classification the walks use: the source's test, or the test with
      matching z faces when matchedZ is set. */
  function Classify(col: Collider, node: OctTreeNode, matchedZ: bool): (r: int)
    ensures 0 <= r <= 2
  {
    if matchedZ then CheckMatchedCollide(col, node) else CheckShapeNodeCollide(col, node)
  }

  // ---------------------------------------------------------------------------
  // Subdivision geometry

  /** The box InitChildren gives child j: children 0-3 take the front half
      (z from the midpoint to front), children 4-7 the back half, each half in
      the order top-left, top-right, bottom-left, bottom-right. */
  function Octant(b: Box, j: nat): Box
    requires j < 8
  {
    var midX := b.left + ((b.right - b.left) / 2.0);
    var midY := b.bottom + ((b.top - b.bottom) / 2.0);
    var midZ := b.back + ((b.front - b.back) / 2.0);
    var front := if j < 4 then b.front else midZ;
    var back := if j < 4 then midZ else b.back;
    var q := j % 4;
    if q == 0 then Box(b.left, midX, b.top, midY, front, back)
    else if q == 1 then Box(midX, b.right, b.top, midY, front, back)
    else if q == 2 then Box(b.left, midX, midY, b.bottom, front, back)
    else Box(midX, b.right, midY, b.bottom, front, back)
  }

  /** The eight octants written out, as InitChildren passes them to InitNode. */
  lemma OctantsOf(b: Box)
    ensures var midX := b.left + ((b.right - b.left) / 2.0);
            var midY := b.bottom + ((b.top - b.bottom) / 2.0);
            var midZ := b.back + ((b.front - b.back) / 2.0);
            && Octant(b, 0) == Box(b.left, midX, b.top, midY, b.front, midZ)
            && Octant(b, 1) == Box(midX, b.right, b.top, midY, b.front, midZ)
            && Octant(b, 2) == Box(b.left, midX, midY, b.bottom, b.front, midZ)
            && Octant(b, 3) == Box(midX, b.right, midY, b.bottom, b.front, midZ)
            && Octant(b, 4) == Box(b.left, midX, b.top, midY, midZ, b.back)
            && Octant(b, 5) == Box(midX, b.right, b.top, midY, midZ, b.back)
            && Octant(b, 6) == Box(b.left, midX, midY, b.bottom, midZ, b.back)
            && Octant(b, 7) == Box(midX, b.right, midY, b.bottom, midZ, b.back)
  {
  }

  predicate InBox(b: Box, x: real, y: real, z: real)
  {
    b.left <= x <= b.right && b.bottom <= y <= b.top && b.back <= z <= b.front
  }

  predicate InInterior(b: Box, x: real, y: real, z: real)
  {
    b.left < x < b.right && b.bottom < y < b.top && b.back < z < b.front
  }

  /** The eight octants tile their parent: a point of the parent lies in some
      octant, and no point lies in the interior of two octants. */
  lemma OctantsTile(b: Box, x: real, y: real, z: real)
    requires b.left <= b.right && b.bottom <= b.top && b.back <= b.front
    ensures InBox(b, x, y, z) <==> exists j :: 0 <= j < 8 && InBox(Octant(b, j), x, y, z)
    ensures forall j, j' :: 0 <= j < j' < 8 ==>
              !(InInterior(Octant(b, j), x, y, z) && InInterior(Octant(b, j'), x, y, z))
  {
    var midX := b.left + ((b.right - b.left) / 2.0);
    var midY := b.bottom + ((b.top - b.bottom) / 2.0);
    var midZ := b.back + ((b.front - b.back) / 2.0);
    if InBox(b, x, y, z) {
      var j := (if z >= midZ then 0 else 4) + (if x <= midX then 0 else 1) + (if y >= midY then 0 else 2);
      assert InBox(Octant(b, j), x, y, z);
    }
    forall j, j' | 0 <= j < j' < 8
      ensures !(InInterior(Octant(b, j), x, y, z) && InInterior(Octant(b, j'), x, y, z))
    {
      if InInterior(Octant(b, j), x, y, z) && InInterior(Octant(b, j'), x, y, z) {
        OctantSide(b, j, x, y, z);
        OctantSide(b, j', x, y, z);
        SameSides(j, j');
        assert false;
      }
    }
  }

  /** Two octant numbers on the same sides of the three middle planes are equal. */
  lemma SameSides(j: nat, j': nat)
    requires j < 8 && j' < 8
    requires (j < 4 <==> j' < 4) && (j % 2 == 0 <==> j' % 2 == 0) && (j % 4 < 2 <==> j' % 4 < 2)
    ensures j == j'
  {
  }

  /** A point inside the interior of octant j lies on the sides of the three
      middle planes that j names. */
  lemma OctantSide(b: Box, j: nat, x: real, y: real, z: real)
    requires j < 8 && InInterior(Octant(b, j), x, y, z)
    ensures j < 4 <==> z > b.back + ((b.front - b.back) / 2.0)
    ensures j % 2 == 0 <==> x < b.left + ((b.right - b.left) / 2.0)
    ensures j % 4 < 2 <==> y > b.bottom + ((b.top - b.bottom) / 2.0)
  {
  }

  /** A collider whose z range reaches across the middle of a box is never a
      full collision for any of its eight children: the first summand needs,
      on z, the low face above the child's back and the high face below its
      front. If its x or y range also reaches across the middle, the second
      summand fails as well and every child reports no collision. */
  lemma StraddlerMissesChildren(col: Collider, b: Box, j: nat, child: OctTreeNode)
    requires j < 8 && BoxOf(child) == Octant(b, j)
    requires LowZ(col) <= b.back + ((b.front - b.back) / 2.0) <= HighZ(col)
    ensures !FacesNear(col, child) && CheckShapeNodeCollide(col, child) <= 1
    ensures (LowX(col) <= b.left + ((b.right - b.left) / 2.0) <= HighX(col)
             || LowY(col) <= b.bottom + ((b.top - b.bottom) / 2.0) <= HighY(col))
            ==> CheckShapeNodeCollide(col, child) == 0
  {
  }

  /** A concrete instance: a cube of side 0.2 at the centre of the unit cube
      is a full collision for the node and no collision for each child, so
      the walk of AddShape leaves the node's children block. */
  lemma CentredShapeFallsThrough(node: OctTreeNode, j: nat, child: OctTreeNode)
    requires BoxOf(node) == Box(0.0, 1.0, 1.0, 0.0, 1.0, 0.0)
    requires j < 8 && BoxOf(child) == Octant(BoxOf(node), j)
    ensures var col := Collider(0.2, 0.2, 0.2, 0.5, 0.5, 0.5);
            CheckShapeNodeCollide(col, node) == 2 && CheckShapeNodeCollide(col, child) == 0
  {
    var col := Collider(0.2, 0.2, 0.2, 0.5, 0.5, 0.5);
    StraddlerMissesChildren(col, BoxOf(node), j, child);
  }

  // ---------------------------------------------------------------------------
  // The state of the node vector

  /** The part of a node that the rebuild never changes. */
  function Static(n: OctTreeNode): OctTreeNode
  {
    n.(shapes := [], active := false, hasChildren := false)
  }

  /** The fixed layout of a node vector: every slot without its list and flags. */
  ghost function Layout(T: seq<OctTreeNode>): seq<OctTreeNode>
  {
    seq(|T|, k requires 0 <= k < |T| => Static(T[k]))
  }

  /** The index fields every slot receives at start-up. */
  ghost predicate LayoutIndexed(L: seq<OctTreeNode>, maxDepth: nat)
  {
    forall k :: 0 <= k < |L| ==>
      && L[k].children == ChildBlock(8 * k + 1)
      && L[k].parent == Parent(k)
      && (L[k].depth == 0 <==> k == 0)
      && (L[k].depth < maxDepth ==> 8 * k + 8 < |L|)
  }

  ghost predicate Indexed(T: seq<OctTreeNode>, maxDepth: nat)
  {
    LayoutIndexed(Layout(T), maxDepth)
  }

  /** The index fields of one slot of an indexed vector. */
  lemma IndexedAt(T: seq<OctTreeNode>, maxDepth: nat, k: nat)
    requires Indexed(T, maxDepth) && k < |T|
    ensures T[k].children == ChildBlock(8 * k + 1) && T[k].parent == Parent(k)
    ensures T[k].depth == 0 <==> k == 0
    ensures T[k].depth < maxDepth ==> 8 * k + 8 < |T|
  {
    assert Layout(T)[k] == Static(T[k]);
  }

  /** Replacing one slot by a node of the same layout keeps the layout. */
  lemma LayoutUpdate(T: seq<OctTreeNode>, k: nat, n: OctTreeNode)
    requires k < |T| && Static(n) == Static(T[k])
    ensures Layout(T[k := n]) == Layout(T)
  {
    assert forall q :: 0 <= q < |T| ==> Layout(T[k := n])[q] == Layout(T)[q];
  }

  /** Every slot below the root has the octant of its parent's box that its
      place in the children block names. */
  ghost predicate LayoutTiled(L: seq<OctTreeNode>)
  {
    forall k {:trigger Octant(BoxOf(L[Parent(k)]), ChildSlot(k))} :: 0 < k < |L| ==>
      BoxOf(L[k]) == Octant(BoxOf(L[Parent(k)]), ChildSlot(k))
  }

  ghost predicate Tiled(T: seq<OctTreeNode>)
  {
    LayoutTiled(Layout(T))
  }

  /** The box of child j of slot p in a tiled vector. */
  lemma TiledAt(T: seq<OctTreeNode>, p: nat, j: nat)
    requires Tiled(T) && j < 8 && 8 * p + 1 + j < |T|
    ensures BoxOf(T[8 * p + 1 + j]) == Octant(BoxOf(T[p]), j)
  {
    var k := 8 * p + 1 + j;
    assert Parent(k) == p && ChildSlot(k) == j;
    assert BoxOf(Layout(T)[k]) == Octant(BoxOf(Layout(T)[Parent(k)]), ChildSlot(k));
    assert Layout(T)[k] == Static(T[k]) && Layout(T)[p] == Static(T[p]);
  }

  /** Only nodes above the last level are ever marked as having children. */
  ghost predicate FlagsBelow(T: seq<OctTreeNode>, maxDepth: nat)
  {
    forall k :: 0 <= k < |T| && T[k].hasChildren ==> T[k].depth < maxDepth
  }

  /** ActivateNode on the node record: active, without children, the rest kept. */
  function ActivateNode(n: OctTreeNode): (r: OctTreeNode)
    ensures r.active && !r.hasChildren
    ensures Static(r) == Static(n) && r.shapes == n.shapes
  {
    n.(active := true, hasChildren := false)
  }

  /** What ResetTree does to a node it visits while active: inactive with an
      empty list, hasChildren left as it was. */
  function ClearNode(n: OctTreeNode): (r: OctTreeNode)
    ensures !r.active && r.shapes == []
    ensures Static(r) == Static(n) && r.hasChildren == n.hasChildren
  {
    n.(active := false, shapes := [])
  }

  /** The push_back of shape s onto the list of slot k. */
  ghost function PushShape(T: seq<OctTreeNode>, k: nat, s: nat): (R: seq<OctTreeNode>)
    requires k < |T|
    ensures Layout(R) == Layout(T)
  {
    var n := T[k].(shapes := T[k].shapes + [s]);
    LayoutUpdate(T, k, n);
    T[k := n]
  }

  /** ActivateChildren: the node gets hasChildren, its eight children are activated. */
  ghost function ChildrenActivated(T: seq<OctTreeNode>, k: nat): (R: seq<OctTreeNode>)
    requires 8 * k + 8 < |T|
    ensures Layout(R) == Layout(T)
  {
    var R := seq(|T|, q requires 0 <= q < |T| =>
      if q == k then T[k].(hasChildren := true)
      else if 8 * k + 1 <= q <= 8 * k + 8 then ActivateNode(T[q])
      else T[q]);
    assert forall q :: 0 <= q < |T| ==> Layout(R)[q] == Layout(T)[q];
    R
  }

  /** ChildrenActivated is what the nine writes of ActivateChildren leave. */
  lemma ActivatedByWrites(T: seq<OctTreeNode>, k: nat)
    requires 8 * k + 8 < |T|
    ensures var c := 8 * k + 1;
            T[k := T[k].(hasChildren := true)]
             [c := ActivateNode(T[c])][c + 1 := ActivateNode(T[c + 1])]
             [c + 2 := ActivateNode(T[c + 2])][c + 3 := ActivateNode(T[c + 3])]
             [c + 4 := ActivateNode(T[c + 4])][c + 5 := ActivateNode(T[c + 5])]
             [c + 6 := ActivateNode(T[c + 6])][c + 7 := ActivateNode(T[c + 7])]
            == ChildrenActivated(T, k)
  {
  }

  /** Splitting a node above the last level keeps every flagged node above it. */
  lemma SplitFlags(T: seq<OctTreeNode>, maxDepth: nat, k: nat)
    requires 8 * k + 8 < |T| && FlagsBelow(T, maxDepth) && T[k].depth < maxDepth
    ensures FlagsBelow(Split(T, k), maxDepth)
  {
  }

  /** The subdivision of AddShape: ActivateChildren on slot k, then its list emptied. */
  ghost function Split(T: seq<OctTreeNode>, k: nat): (R: seq<OctTreeNode>)
    requires 8 * k + 8 < |T|
    ensures Layout(R) == Layout(T)
  {
    var T1 := ChildrenActivated(T, k);
    LayoutUpdate(T1, k, T1[k].(shapes := []));
    T1[k := T1[k].(shapes := [])]
  }

  /** The walk of AddShape(shape, startingNode) from slot i: the node vector
      after shape s, whose collider is collider(s), has been added. The
      classification is the source's when matchedZ is false, and the one with
      matching z faces when it is true. */
  ghost function Insert(T: seq<OctTreeNode>, cfg: Config, collider: nat -> Collider, s: nat, i: nat, matchedZ: bool)
    : (R: seq<OctTreeNode>)
    requires Indexed(T, cfg.maxDepth)
    ensures Layout(R) == Layout(T)
    decreases |T| - i, 1, 0
  {
    if i >= |T| then T
    else
      IndexedAt(T, cfg.maxDepth, i);
      var node := T[i];
      var result := Classify(collider(s), node, matchedZ);
      if result == 0 then
        Insert(T, cfg, collider, s, i + 1, matchedZ)
      else if result == 1 && node.depth != 0 then
        PushShape(T, node.parent, s)
      else if |node.shapes| >= cfg.maxPerNode && node.depth < cfg.maxDepth then
        if !node.hasChildren then
          Insert(Subdivided(T, cfg, collider, i, matchedZ), cfg, collider, s, node.children[0], matchedZ)
        else
          Insert(T, cfg, collider, s, node.children[0], matchedZ)
      else if !node.hasChildren then
        PushShape(T, i, s)
      else
        Insert(T, cfg, collider, s, node.children[0], matchedZ)
  }

  /** The shapes of a list added one after the other, each walk starting at c. */
  ghost function InsertAll(T: seq<OctTreeNode>, cfg: Config, collider: nat -> Collider, list: seq<nat>, c: nat,
                           matchedZ: bool)
    : (R: seq<OctTreeNode>)
    requires Indexed(T, cfg.maxDepth)
    ensures Layout(R) == Layout(T)
    decreases |T| - c, 2, |list|
  {
    if list == [] then T
    else InsertAll(Insert(T, cfg, collider, list[0], c, matchedZ), cfg, collider, list[1..], c, matchedZ)
  }

  /** The subdivision of slot k together with the re-insertion of the shapes
      it held, from its first child. */
  ghost function Subdivided(T: seq<OctTreeNode>, cfg: Config, collider: nat -> Collider, k: nat, matchedZ: bool)
    : (R: seq<OctTreeNode>)
    requires Indexed(T, cfg.maxDepth) && k < |T| && T[k].depth < cfg.maxDepth
    ensures Layout(R) == Layout(T)
    decreases |T| - k, 0, 0
  {
    IndexedAt(T, cfg.maxDepth, k);
    InsertAll(Split(T, k), cfg, collider, T[k].shapes, T[k].children[0], matchedZ)
  }

  /** Insert, one step at a time, in the order of the branches of the walk. */
  lemma InsertStep(T: seq<OctTreeNode>, cfg: Config, collider: nat -> Collider, s: nat, i: nat, matchedZ: bool)
    requires Indexed(T, cfg.maxDepth) && i < |T|
    ensures T[i].children == ChildBlock(8 * i + 1) && T[i].parent == Parent(i) < |T|
    ensures var r := Classify(collider(s), T[i], matchedZ);
            var n := T[i];
            var full := |n.shapes| >= cfg.maxPerNode && n.depth < cfg.maxDepth;
            && (r == 0 ==> Insert(T, cfg, collider, s, i, matchedZ) == Insert(T, cfg, collider, s, i + 1, matchedZ))
            && (r == 1 && n.depth != 0 ==> Insert(T, cfg, collider, s, i, matchedZ) == PushShape(T, n.parent, s))
            && (r == 2 || (r == 1 && n.depth == 0) ==>
                  if n.hasChildren then
                    Insert(T, cfg, collider, s, i, matchedZ) == Insert(T, cfg, collider, s, n.children[0], matchedZ)
                  else if full then
                    Insert(T, cfg, collider, s, i, matchedZ)
                    == Insert(Subdivided(T, cfg, collider, i, matchedZ), cfg, collider, s, n.children[0], matchedZ)
                  else
                    Insert(T, cfg, collider, s, i, matchedZ) == PushShape(T, i, s))
  {
    IndexedAt(T, cfg.maxDepth, i);
  }

  /** The slots where AddShape's walk goes on downwards or stops at the node
      itself: a full collision, or a partial one at the root. */
  ghost predicate Hit(T: seq<OctTreeNode>, col: Collider, i: nat, matchedZ: bool)
    requires i < |T|
  {
    var r := Classify(col, T[i], matchedZ);
    r == 2 || (r == 1 && T[i].depth == 0)
  }

  lemma InsertMiss(T: seq<OctTreeNode>, cfg: Config, collider: nat -> Collider, s: nat, i: nat, matchedZ: bool)
    requires Indexed(T, cfg.maxDepth) && i < |T| && Classify(collider(s), T[i], matchedZ) == 0
    ensures Insert(T, cfg, collider, s, i, matchedZ) == Insert(T, cfg, collider, s, i + 1, matchedZ)
  {
  }

  lemma InsertUp(T: seq<OctTreeNode>, cfg: Config, collider: nat -> Collider, s: nat, i: nat, matchedZ: bool)
    requires Indexed(T, cfg.maxDepth) && i < |T|
    requires Classify(collider(s), T[i], matchedZ) == 1 && T[i].depth != 0
    ensures 0 <= T[i].parent < |T| && Insert(T, cfg, collider, s, i, matchedZ) == PushShape(T, T[i].parent, s)
  {
    IndexedAt(T, cfg.maxDepth, i);
  }

  lemma InsertDown(T: seq<OctTreeNode>, cfg: Config, collider: nat -> Collider, s: nat, i: nat, matchedZ: bool)
    requires Indexed(T, cfg.maxDepth) && i < |T| && Hit(T, collider(s), i, matchedZ) && T[i].hasChildren
    ensures |T[i].children| == 8 && T[i].children[0] == 8 * i + 1
    ensures Insert(T, cfg, collider, s, i, matchedZ) == Insert(T, cfg, collider, s, T[i].children[0], matchedZ)
    ensures Insert(T, cfg, collider, s, i, matchedZ) == Insert(T, cfg, collider, s, 8 * i + 1, matchedZ)
  {
    IndexedAt(T, cfg.maxDepth, i);
  }

  lemma InsertSplit(T: seq<OctTreeNode>, cfg: Config, collider: nat -> Collider, s: nat, i: nat, matchedZ: bool)
    requires Indexed(T, cfg.maxDepth) && i < |T| && Hit(T, collider(s), i, matchedZ) && !T[i].hasChildren
    requires |T[i].shapes| >= cfg.maxPerNode && T[i].depth < cfg.maxDepth
    ensures |T[i].children| == 8 && T[i].children[0] == 8 * i + 1
    ensures Insert(T, cfg, collider, s, i, matchedZ)
            == Insert(Subdivided(T, cfg, collider, i, matchedZ), cfg, collider, s, T[i].children[0], matchedZ)
    ensures Insert(T, cfg, collider, s, i, matchedZ)
            == Insert(Subdivided(T, cfg, collider, i, matchedZ), cfg, collider, s, 8 * i + 1, matchedZ)
  {
    IndexedAt(T, cfg.maxDepth, i);
  }

  lemma InsertHere(T: seq<OctTreeNode>, cfg: Config, collider: nat -> Collider, s: nat, i: nat, matchedZ: bool)
    requires Indexed(T, cfg.maxDepth) && i < |T| && Hit(T, collider(s), i, matchedZ) && !T[i].hasChildren
    requires !(|T[i].shapes| >= cfg.maxPerNode && T[i].depth < cfg.maxDepth)
    ensures Insert(T, cfg, collider, s, i, matchedZ) == PushShape(T, i, s)
  {
    IndexedAt(T, cfg.maxDepth, i);
  }

  /** The walk of GetNearbyShapes from slot i: the slot whose list is returned,
      or None where the source's loop runs off the end of the vector. */
  ghost function QueryFrom(T: seq<OctTreeNode>, maxDepth: nat, col: Collider, i: nat, matchedZ: bool): (r: Option<nat>)
    requires Indexed(T, maxDepth)
    ensures r.Some? ==> r.value < |T|
    decreases |T| - i
  {
    if i >= |T| then None
    else
      IndexedAt(T, maxDepth, i);
      var result := Classify(col, T[i], matchedZ);
      if result == 0 then QueryFrom(T, maxDepth, col, i + 1, matchedZ)
      else if result == 1 && T[i].depth != 0 then Some(T[i].parent)
      else if !T[i].hasChildren then Some(i)
      else QueryFrom(T, maxDepth, col, T[i].children[0], matchedZ)
  }

  // ---------------------------------------------------------------------------
  // ResetTree

  /** The nodes ResetTree reaches while they are active: the root if active,
      and an active child of a reached node that has children. */
  ghost predicate Reached(T: seq<OctTreeNode>, k: nat)
    decreases k
  {
    && k < |T| && T[k].active
    && (k == 0 || (T[Parent(k)].hasChildren && Reached(T, Parent(k))))
  }

  /** The node vector after ResetTree: every reached node cleared, every
      other node as it was. */
  ghost function Swept(T: seq<OctTreeNode>): (R: seq<OctTreeNode>)
    ensures Layout(R) == Layout(T)
  {
    var R := seq(|T|, k requires 0 <= k < |T| => if Reached(T, k) then ClearNode(T[k]) else T[k]);
    assert forall q :: 0 <= q < |T| ==> Layout(R)[q] == Layout(T)[q];
    R
  }

  /** The active part hangs from the root: every active node other than the
      root has an active parent that has children. */
  ghost predicate ActiveHangsFromRoot(T: seq<OctTreeNode>)
  {
    forall k :: 0 < k < |T| && T[k].active ==> T[Parent(k)].active && T[Parent(k)].hasChildren
  }

  /** When the active part hangs from the root, ResetTree reaches every
      active node. */
  lemma {:induction false} ActiveIsReached(T: seq<OctTreeNode>, k: nat)
    requires ActiveHangsFromRoot(T) && k < |T| && T[k].active
    ensures Reached(T, k)
    decreases k
  {
    if k > 0 {
      ActiveIsReached(T, Parent(k));
    }
  }

  /** When the active part hangs from the root, no node is active after
      ResetTree, every list of a formerly active node is empty, and the
      hasChildren flags are untouched. */
  lemma SweepDeactivatesAll(T: seq<OctTreeNode>)
    requires ActiveHangsFromRoot(T)
    ensures forall k :: 0 <= k < |T| ==> !Swept(T)[k].active
    ensures forall k :: 0 <= k < |T| && T[k].active ==> Swept(T)[k].shapes == []
    ensures forall k :: 0 <= k < |T| ==> Swept(T)[k].hasChildren == T[k].hasChildren
  {
    forall k | 0 <= k < |T| && T[k].active
      ensures Reached(T, k)
    {
      ActiveIsReached(T, k);
    }
  }

  /** The state of ResetTree's loop: the nodes in done have been cleared and
      were reached, with their parents done before them; every entry of the
      stack is the root or a child of a done node that has children; and a
      reached node not yet done is on the stack or has a parent not yet done. */
  ghost predicate SweepState(T0: seq<OctTreeNode>, T: seq<OctTreeNode>, done: set<nat>, stack: seq<int>)
  {
    && |T| == |T0|
    && (forall k :: 0 <= k < |T0| ==> T[k] == if k in done then ClearNode(T0[k]) else T0[k])
    && (forall k :: k in done ==> k < |T0| && Reached(T0, k) && (k == 0 || Parent(k) in done))
    && (forall j :: 0 <= j < |stack| ==>
          0 <= stack[j] < |T0|
          && (stack[j] == 0 || (Parent(stack[j]) in done && T0[Parent(stack[j])].hasChildren)))
    && (forall k :: 0 <= k < |T0| && Reached(T0, k) && k !in done ==>
          k in stack || (k != 0 && Parent(k) !in done))
  }

  /** The slots not yet cleared by ResetTree. */
  ghost function Pending(T0: seq<OctTreeNode>, done: set<nat>): set<nat>
  {
    set k | 0 <= k < |T0| && k !in done
  }

  /** Popping a node that is not active changes nothing else. */
  lemma SweepSkip(T0: seq<OctTreeNode>, T: seq<OctTreeNode>, done: set<nat>, stack: seq<int>)
    requires SweepState(T0, T, done, stack) && stack != []
    requires !T[stack[|stack| - 1]].active
    ensures SweepState(T0, T, done, stack[..|stack| - 1])
  {
  }

  /** The stack entries after popping top and pushing its children. */
  lemma PushedChildren(T0: seq<OctTreeNode>, done: set<nat>, stack: seq<int>, top: nat, rest: seq<int>)
    requires stack != [] && top == stack[|stack| - 1] && 8 * top + 8 < |T0|
    requires forall j :: 0 <= j < |stack| ==>
               0 <= stack[j] < |T0|
               && (stack[j] == 0 || (Parent(stack[j]) in done && T0[Parent(stack[j])].hasChildren))
    requires T0[top].hasChildren && rest == stack[..|stack| - 1] + ChildBlock(8 * top + 1)
    ensures forall j :: 0 <= j < |rest| ==>
              0 <= rest[j] < |T0|
              && (rest[j] == 0 || (Parent(rest[j]) in done + {top} && T0[Parent(rest[j])].hasChildren))
  {
    forall j | 0 <= j < |rest|
      ensures 0 <= rest[j] < |T0|
      ensures rest[j] == 0 || (Parent(rest[j]) in done + {top} && T0[Parent(rest[j])].hasChildren)
    {
      if j >= |stack| - 1 {
        assert rest[j] == 8 * top + 1 + (j - |stack| + 1);
      } else {
        assert rest[j] == stack[j];
      }
    }
  }

  /** A reached node whose parent is the popped node is among its children. */
  lemma ReachedCovered(T0: seq<OctTreeNode>, done: set<nat>, stack: seq<int>, top: nat, rest: seq<int>)
    requires stack != [] && top == stack[|stack| - 1] && top < |T0|
    requires forall k :: 0 <= k < |T0| && Reached(T0, k) && k !in done ==>
               k in stack || (k != 0 && Parent(k) !in done)
    requires rest == stack[..|stack| - 1] + (if T0[top].hasChildren then ChildBlock(8 * top + 1) else [])
    ensures forall k :: 0 <= k < |T0| && Reached(T0, k) && k !in done + {top} ==>
              k in rest || (k != 0 && Parent(k) !in done + {top})
  {
    forall k | 0 <= k < |T0| && Reached(T0, k) && k !in done + {top}
      ensures k in rest || (k != 0 && Parent(k) !in done + {top})
    {
      if k != 0 && Parent(k) == top {
        assert k == ChildBlock(8 * top + 1)[k - 8 * top - 1];
      } else {
        assert k in stack ==> k in stack[..|stack| - 1];
      }
    }
  }

  /** Popping an active node clears it, marks it done, and pushes its
      children when it has some. */
  lemma SweepClear(T0: seq<OctTreeNode>, T: seq<OctTreeNode>, done: set<nat>, stack: seq<int>, maxDepth: nat)
    requires SweepState(T0, T, done, stack) && stack != []
    requires Indexed(T0, maxDepth) && FlagsBelow(T0, maxDepth)
    requires T[stack[|stack| - 1]].active
    ensures var top := stack[|stack| - 1];
            && top !in done && T[top] == T0[top]
            && Pending(T0, done + {top}) < Pending(T0, done)
            && var rest := stack[..|stack| - 1] + (if T0[top].hasChildren then T0[top].children else []);
               SweepState(T0, T[top := ClearNode(T0[top])], done + {top}, rest)
  {
    var top := stack[|stack| - 1];
    assert top !in done;
    IndexedAt(T0, maxDepth, top);
    assert Reached(T0, top);
    var rest := stack[..|stack| - 1] + (if T0[top].hasChildren then T0[top].children else []);
    ReachedCovered(T0, done, stack, top, rest);
    if T0[top].hasChildren {
      PushedChildren(T0, done, stack, top, rest);
    } else {
      assert forall j :: 0 <= j < |rest| ==> rest[j] == stack[j];
    }
    ClearedSlots(T0, T, done, top);
    DoneClosed(T0, done, top);
    assert top in Pending(T0, done) && top !in Pending(T0, done + {top});
  }

  /** Clearing slot top moves it from the untouched slots to the cleared ones. */
  lemma ClearedSlots(T0: seq<OctTreeNode>, T: seq<OctTreeNode>, done: set<nat>, top: nat)
    requires |T| == |T0| && top < |T0|
    requires forall k :: 0 <= k < |T0| ==> T[k] == if k in done then ClearNode(T0[k]) else T0[k]
    requires top !in done
    ensures forall k :: 0 <= k < |T0| ==>
              T[top := ClearNode(T0[top])][k] == if k in done + {top} then ClearNode(T0[k]) else T0[k]
  {
  }

  /** A reached node whose parent was cleared keeps the cleared set closed under parents. */
  lemma DoneClosed(T0: seq<OctTreeNode>, done: set<nat>, top: nat)
    requires forall k :: k in done ==> k < |T0| && Reached(T0, k) && (k == 0 || Parent(k) in done)
    requires top < |T0| && Reached(T0, top) && (top == 0 || Parent(top) in done)
    ensures forall k :: k in done + {top} ==> k < |T0| && Reached(T0, k) && (k == 0 || Parent(k) in done + {top})
  {
  }

  /** With an empty stack, the cleared slots are exactly the reached ones. */
  lemma SweepFinished(T0: seq<OctTreeNode>, T: seq<OctTreeNode>, done: set<nat>)
    requires SweepState(T0, T, done, [])
    ensures T == Swept(T0)
  {
    forall k | 0 <= k < |T0| && Reached(T0, k)
      ensures k in done
    {
      AllReachedDone(T0, done, k);
    }
  }

  /** With an empty stack, a reached node that was not cleared would need an
      uncleared reached ancestor, down to the root. */
  lemma {:induction false} AllReachedDone(T0: seq<OctTreeNode>, done: set<nat>, k: nat)
    requires k < |T0| && Reached(T0, k)
    requires forall q :: 0 <= q < |T0| && Reached(T0, q) && q !in done ==> q != 0 && Parent(q) !in done
    ensures k in done
    decreases k
  {
    if k != 0 {
      AllReachedDone(T0, done, Parent(k));
    }
  }

  /** The vector UpdateOctTree re-fills: swept, then the root activated. */
  ghost function Restarted(T: seq<OctTreeNode>): (R: seq<OctTreeNode>)
    ensures Layout(R) == Layout(T)
  {
    var S := Swept(T);
    if |S| == 0 then S
    else
      LayoutUpdate(S, 0, ActivateNode(S[0]));
      S[0 := ActivateNode(S[0])]
  }

  // ---------------------------------------------------------------------------
  // Construction

  /** A node as InitChildren creates it in slot c, under parentIndex, with box b. */
  ghost predicate FreshChild(n: OctTreeNode, c: nat, parentIndex: nat, depth: nat, b: Box)
  {
    && n.children == ChildBlock(8 * c + 1)
    && n.parent == parentIndex && n.depth == depth
    && BoxOf(n) == b
    && !n.active && !n.hasChildren && n.shapes == []
  }

  /** What the constructor leaves in slot k. */
  ghost predicate Laid(T: seq<OctTreeNode>, root: Box, k: nat)
    requires k < |T|
  {
    && T[k].children == ChildBlock(8 * k + 1)
    && T[k].parent == Parent(k)
    && T[k].depth == DepthOf(k)
    && BoxOf(T[k]) == (if k == 0 then root else Octant(BoxOf(T[Parent(k)]), ChildSlot(k)))
    && !T[k].active && !T[k].hasChildren && T[k].shapes == []
  }

  /** A child created by InitChildren below a laid-out node is laid out. */
  lemma LaidChild(before: seq<OctTreeNode>, after: seq<OctTreeNode>, root: Box, i: nat, j: nat)
    requires j < 8 && 8 * i + 1 + j < |after| == |before|
    requires Laid(before, root, i) && after[i] == before[i]
    requires FreshChild(after[8 * i + 1 + j], 8 * i + 1 + j, i, before[i].depth + 1,
                        Octant(BoxOf(before[i]), j))
    ensures Laid(after, root, 8 * i + 1 + j)
  {
    var c := 8 * i + 1 + j;
    assert Parent(c) == i && ChildSlot(c) == j;
  }

  /** The eight children of slot i as InitChildren creates them. */
  ghost predicate FreshBlock(before: seq<OctTreeNode>, after: seq<OctTreeNode>, i: nat)
    requires i < |before| && 8 * i + 8 < |after|
  {
    forall j :: 0 <= j < 8 ==>
      FreshChild(after[8 * i + 1 + j], 8 * i + 1 + j, i, before[i].depth + 1, Octant(BoxOf(before[i]), j))
  }

  /** The eight children of slot i, one by one, make up a fresh block. */
  lemma FreshBlockOf(before: seq<OctTreeNode>, after: seq<OctTreeNode>, i: nat)
    requires i < |before| && 8 * i + 8 < |after|
    requires var d := before[i].depth + 1; var b := BoxOf(before[i]);
             && FreshChild(after[8 * i + 1], 8 * i + 1, i, d, Octant(b, 0))
             && FreshChild(after[8 * i + 2], 8 * i + 2, i, d, Octant(b, 1))
             && FreshChild(after[8 * i + 3], 8 * i + 3, i, d, Octant(b, 2))
             && FreshChild(after[8 * i + 4], 8 * i + 4, i, d, Octant(b, 3))
             && FreshChild(after[8 * i + 5], 8 * i + 5, i, d, Octant(b, 4))
             && FreshChild(after[8 * i + 6], 8 * i + 6, i, d, Octant(b, 5))
             && FreshChild(after[8 * i + 7], 8 * i + 7, i, d, Octant(b, 6))
             && FreshChild(after[8 * i + 8], 8 * i + 8, i, d, Octant(b, 7))
    ensures FreshBlock(before, after, i)
  {
  }

  /** The record InitNode(depth, parentIndex, childNum, box) creates: its
      children block starts at GetDepthIndex(depth) + childNum * 8, and it is
      inactive, childless and empty. */
  ghost function NewNode(depth: nat, parentIndex: int, childNum: int, b: Box): OctTreeNode
  {
    var base := LevelSum(8, depth) + childNum * 8;
    OctTreeNode([], ChildBlock(base), parentIndex, false, false, depth,
                b.left, b.right, b.top, b.bottom, b.front, b.back)
  }

  /** The eight records InitChildren creates under p in slot i: one per
      octant of p's box, numbered childNum .. childNum + 7 within their level. */
  ghost predicate EightChildren(p: OctTreeNode, i: nat, childNum: int,
                                n0: OctTreeNode, n1: OctTreeNode, n2: OctTreeNode, n3: OctTreeNode,
                                n4: OctTreeNode, n5: OctTreeNode, n6: OctTreeNode, n7: OctTreeNode)
  {
    var d := p.depth + 1;
    var midX := p.left + ((p.right - p.left) / 2.0);
    var midY := p.bottom + ((p.top - p.bottom) / 2.0);
    var midZ := p.back + ((p.front - p.back) / 2.0);
    && n0 == NewNode(d, i, childNum, Box(p.left, midX, p.top, midY, p.front, midZ))
    && n1 == NewNode(d, i, childNum + 1, Box(midX, p.right, p.top, midY, p.front, midZ))
    && n2 == NewNode(d, i, childNum + 2, Box(p.left, midX, midY, p.bottom, p.front, midZ))
    && n3 == NewNode(d, i, childNum + 3, Box(midX, p.right, midY, p.bottom, p.front, midZ))
    && n4 == NewNode(d, i, childNum + 4, Box(p.left, midX, p.top, midY, midZ, p.back))
    && n5 == NewNode(d, i, childNum + 5, Box(midX, p.right, p.top, midY, midZ, p.back))
    && n6 == NewNode(d, i, childNum + 6, Box(p.left, midX, midY, p.bottom, midZ, p.back))
    && n7 == NewNode(d, i, childNum + 7, Box(midX, p.right, midY, p.bottom, midZ, p.back))
  }

  /** The eight InitNode calls of InitChildren below slot i, written into the
      children block, make up a fresh block and change nothing outside it. */
  lemma BlockWritten(T: seq<OctTreeNode>, i: nat, p: OctTreeNode, childNum: int,
                     n0: OctTreeNode, n1: OctTreeNode, n2: OctTreeNode, n3: OctTreeNode,
                     n4: OctTreeNode, n5: OctTreeNode, n6: OctTreeNode, n7: OctTreeNode)
    requires 8 * i + 8 < |T| && T[i] == p && childNum == 8 * i + 1 - LevelSum(8, p.depth)
    requires EightChildren(p, i, childNum, n0, n1, n2, n3, n4, n5, n6, n7)
    ensures var c := 8 * i + 1;
            var W := T[c := n0][c + 1 := n1][c + 2 := n2][c + 3 := n3]
                      [c + 4 := n4][c + 5 := n5][c + 6 := n6][c + 7 := n7];
            && W[..c] == T[..c] && W[c + 8..] == T[c + 8..]
            && FreshBlock(T, W, i)
  {
    var c := 8 * i + 1;
    var W := T[c := n0][c + 1 := n1][c + 2 := n2][c + 3 := n3]
              [c + 4 := n4][c + 5 := n5][c + 6 := n6][c + 7 := n7];
    ChildBlocksOf(i, T[i].depth, childNum);
    OctantsOf(BoxOf(T[i]));
    assert W[c] == n0 && W[c + 1] == n1 && W[c + 2] == n2 && W[c + 3] == n3;
    assert W[c + 4] == n4 && W[c + 5] == n5 && W[c + 6] == n6 && W[c + 7] == n7;
    FreshBlockOf(T, W, i);
  }

  /** InitChildren(i) leaves the slots up to 8i as they were. */
  lemma LaidPrefix(before: seq<OctTreeNode>, after: seq<OctTreeNode>, root: Box, i: nat)
    requires 8 * i + 8 < |after| == |before|
    requires forall k :: 0 <= k <= 8 * i ==> Laid(before, root, k)
    requires after[..8 * i + 1] == before[..8 * i + 1]
    ensures forall k :: 0 <= k <= 8 * i ==> Laid(after, root, k)
  {
    forall k | 0 <= k <= 8 * i
      ensures Laid(after, root, k)
    {
      assert Laid(before, root, k);
      assert after[k] == after[..8 * i + 1][k] == before[..8 * i + 1][k] == before[k];
      assert after[Parent(k)] == after[..8 * i + 1][Parent(k)];
    }
  }

  /** One round of the constructor's loop: after InitChildren(i) the slots up
      to 8i + 8 are laid out. */
  lemma LaidStep(before: seq<OctTreeNode>, after: seq<OctTreeNode>, root: Box, i: nat)
    requires 8 * i + 8 < |after| == |before|
    requires forall k :: 0 <= k <= 8 * i ==> Laid(before, root, k)
    requires after[..8 * i + 1] == before[..8 * i + 1]
    requires FreshBlock(before, after, i)
    ensures forall k :: 0 <= k <= 8 * i + 8 ==> Laid(after, root, k)
  {
    LaidPrefix(before, after, root, i);
    assert after[i] == after[..8 * i + 1][i];
    assert Laid(before, root, i);
    forall k | 8 * i + 1 <= k <= 8 * i + 8
      ensures Laid(after, root, k)
    {
      LaidChild(before, after, root, i, k - 8 * i - 1);
    }
  }

  /** A laid-out slot above the last level has its eight children inside the
      vector and records their block. */
  lemma InitReady(T: seq<OctTreeNode>, root: Box, i: nat, maxDepth: nat)
    requires 0 < maxDepth && |T| == LevelSum(8, maxDepth) && i < LevelSum(8, maxDepth - 1)
    requires forall k :: 0 <= k <= 8 * i && k < |T| ==> Laid(T, root, k)
    ensures 8 * i + 8 < |T| && T[i].children == ChildBlock(8 * i + 1)
  {
    LevelSumMonotone(8, maxDepth - 1, maxDepth);
    assert Laid(T, root, i);
    SlotInBlock(i);
    if DepthOf(i) >= maxDepth {
      LevelSumMonotone(8, maxDepth - 1, DepthOf(i) - 1);
    }
    ChildrenInTree(i, maxDepth);
  }

  /** A vector laid out in full carries the index fields and the boxes of
      the tree, and no node is marked as having children. */
  lemma LaidIndexed(T: seq<OctTreeNode>, root: Box, maxDepth: nat)
    requires |T| == LevelSum(8, maxDepth)
    requires forall k :: 0 <= k < |T| ==> Laid(T, root, k)
    ensures Indexed(T, maxDepth) && Tiled(T) && FlagsBelow(T, maxDepth)
  {
    var L := Layout(T);
    forall k | 0 <= k < |L|
      ensures L[k].children == ChildBlock(8 * k + 1) && L[k].parent == Parent(k)
      ensures L[k].depth == 0 <==> k == 0
      ensures L[k].depth < maxDepth ==> 8 * k + 8 < |L|
    {
      assert Laid(T, root, k);
      assert L[k] == Static(T[k]);
      if T[k].depth < maxDepth {
        ChildrenInTree(k, maxDepth);
      }
    }
    forall k | 0 < k < |L|
      ensures BoxOf(L[k]) == Octant(BoxOf(L[Parent(k)]), ChildSlot(k))
    {
      assert Laid(T, root, k);
      assert L[k] == Static(T[k]) && L[Parent(k)] == Static(T[Parent(k)]);
    }
    forall k | 0 <= k < |T|
      ensures !T[k].hasChildren
    {
      assert Laid(T, root, k);
    }
  }
}
