/** The quad tree manager: a complete 4-ary tree over axis-aligned rectangles,
    built in full at start-up in one vector and re-filled with the shapes every
    frame by an iterative index walk. */
module QuadTree {
  import opened DepthSums
  import opened Geometry
  import opened Wrappers

  /** One slot of the node vector. The outline render handle is not modelled. */
  datatype QuadTreeNode = QuadTreeNode(
    shapes: seq<nat>,
    children: seq<int>,
    parent: int,
    active: bool,
    hasChildren: bool,
    depth: nat,
    left: real,
    right: real,
    top: real,
    bottom: real)

  /** The manager's limits: the depth of the tree and the shapes a node holds
      before it subdivides. */
  datatype Config = Config(maxDepth: nat, maxPerNode: nat)

  datatype Bounds = Bounds(left: real, right: real, top: real, bottom: real)

  function BoundsOf(n: QuadTreeNode): Bounds
  {
    Bounds(n.left, n.right, n.top, n.bottom)
  }

  // ---------------------------------------------------------------------------
  // Index arithmetic of the breadth-first layout

  /** The four consecutive slots of a children block. */
  function ChildBlock(first: int): seq<int>
  {
    [first, first + 1, first + 2, first + 3]
  }

  /** The slot of a node's parent; the root is its own parent. */
  function Parent(k: nat): nat
  {
    if k == 0 then 0 else (k - 1) / 4
  }

  /** Which of its parent's four children the node in slot k is. */
  function ChildSlot(k: nat): nat
    requires k > 0
  {
    (k - 1) % 4
  }

  /** The depth of the node in slot k. */
  function DepthOf(k: nat): nat
    decreases k
  {
    if k == 0 then 0 else DepthOf(Parent(k)) + 1
  }

  /** The slots of depth d are LevelSum(4, d - 1) .. LevelSum(4, d) - 1. */
  lemma {:induction false} DepthOfBlock(k: nat, d: nat)
    requires LevelSum(4, d - 1) <= k < LevelSum(4, d)
    ensures DepthOf(k) == d
    decreases k
  {
    if k > 0 && d > 0 {
      LevelSumNext(4, d - 1);
      LevelSumNext(4, d);
      DepthOfBlock(Parent(k), d - 1);
    }
  }

  /** Slot k lies in the block of its own depth. */
  lemma {:induction false} SlotInBlock(k: nat)
    ensures LevelSum(4, DepthOf(k) - 1) <= k < LevelSum(4, DepthOf(k))
    decreases k
  {
    if k > 0 {
      SlotInBlock(Parent(k));
      LevelSumNext(4, DepthOf(k) - 1);
      LevelSumNext(4, DepthOf(k));
    }
  }

  /** The node with sibling offset c at depth d sits in slot GetDepthIndex(d - 1) + c;
      its children sit at GetDepthIndex(d) + 4c .. + 3. Each child is in the
      depth-(d+1) block, lies after the node, and has the node as parent. */
  lemma BlockLayout(d: nat, c: nat, j: nat)
    requires c < Pow(4, d) && j < 4
    ensures var k := LevelSum(4, d - 1) + c;
            var child := LevelSum(4, d) + 4 * c + j;
            && child == 4 * k + 1 + j
            && k < child
            && Parent(child) == k && ChildSlot(child) == j
            && DepthOf(k) == d && DepthOf(child) == d + 1
            && LevelSum(4, d) <= child < LevelSum(4, d + 1)
  {
    var k := LevelSum(4, d - 1) + c;
    LevelSumNext(4, d);
    LevelSumNext(4, d + 1);
    assert LevelSum(4, d) == LevelSum(4, d - 1) + Pow(4, d);
    DepthOfBlock(k, d);
    DepthOfBlock(LevelSum(4, d) + 4 * c + j, d + 1);
  }

  /** A node as InitChildren creates it in slot c, under parentIndex, with bounds b. */
  ghost predicate FreshChild(n: QuadTreeNode, c: nat, parentIndex: nat, depth: nat, b: Bounds)
  {
    && n.children == ChildBlock(4 * c + 1)
    && n.parent == parentIndex && n.depth == depth
    && BoundsOf(n) == b
    && n.active && !n.hasChildren && n.shapes == []
  }

  /** What the constructor leaves in slot k. */
  ghost predicate Laid(T: seq<QuadTreeNode>, root: Bounds, k: nat)
    requires k < |T|
  {
    && T[k].children == ChildBlock(4 * k + 1)
    && T[k].parent == Parent(k)
    && T[k].depth == DepthOf(k)
    && BoundsOf(T[k]) == (if k == 0 then root else Quadrant(BoundsOf(T[Parent(k)]), ChildSlot(k)))
    && T[k].active && !T[k].hasChildren && T[k].shapes == []
  }

  /** A child created by InitChildren below a laid-out node is laid out. */
  lemma LaidChild(before: seq<QuadTreeNode>, after: seq<QuadTreeNode>, root: Bounds, i: nat, j: nat)
    requires j < 4 && 4 * i + 1 + j < |after| == |before|
    requires Laid(before, root, i) && after[i] == before[i]
    requires FreshChild(after[4 * i + 1 + j], 4 * i + 1 + j, i, before[i].depth + 1,
                        Quadrant(BoundsOf(before[i]), j))
    ensures Laid(after, root, 4 * i + 1 + j)
  {
    var c := 4 * i + 1 + j;
    assert Parent(c) == i && ChildSlot(c) == j;
  }

  /** One round of the constructor's loop: after InitChildren(i) the slots up
      to 4i + 4 are laid out. */
  lemma LaidStep(before: seq<QuadTreeNode>, after: seq<QuadTreeNode>, root: Bounds, i: nat)
    requires 4 * i + 4 < |after| == |before|
    requires forall k :: 0 <= k <= 4 * i ==> Laid(before, root, k)
    requires after[..4 * i + 1] == before[..4 * i + 1]
    requires FreshChild(after[4 * i + 1], 4 * i + 1, i, before[i].depth + 1, Quadrant(BoundsOf(before[i]), 0))
    requires FreshChild(after[4 * i + 2], 4 * i + 2, i, before[i].depth + 1, Quadrant(BoundsOf(before[i]), 1))
    requires FreshChild(after[4 * i + 3], 4 * i + 3, i, before[i].depth + 1, Quadrant(BoundsOf(before[i]), 2))
    requires FreshChild(after[4 * i + 4], 4 * i + 4, i, before[i].depth + 1, Quadrant(BoundsOf(before[i]), 3))
    ensures forall k :: 0 <= k <= 4 * i + 4 ==> Laid(after, root, k)
  {
    forall k | 0 <= k <= 4 * i
      ensures Laid(after, root, k)
    {
      assert Laid(before, root, k);
      assert after[k] == after[..4 * i + 1][k] == before[..4 * i + 1][k] == before[k];
      assert after[Parent(k)] == after[..4 * i + 1][Parent(k)];
    }
    assert after[i] == after[..4 * i + 1][i];
    LaidChild(before, after, root, i, 0);
    LaidChild(before, after, root, i, 1);
    LaidChild(before, after, root, i, 2);
    LaidChild(before, after, root, i, 3);
  }

  /** A laid-out slot above the last level has its four children inside the
      vector and records their block. */
  lemma InitReady(T: seq<QuadTreeNode>, root: Bounds, i: nat, maxDepth: nat)
    requires 0 < maxDepth && |T| == LevelSum(4, maxDepth) && i < LevelSum(4, maxDepth - 1)
    requires forall k :: 0 <= k <= 4 * i && k < |T| ==> Laid(T, root, k)
    ensures 4 * i + 4 < |T| && T[i].children == ChildBlock(4 * i + 1)
  {
    LevelSumMonotone(4, maxDepth - 1, maxDepth);
    assert Laid(T, root, i);
    SlotInBlock(i);
    if DepthOf(i) >= maxDepth {
      LevelSumMonotone(4, maxDepth - 1, DepthOf(i) - 1);
    }
    ChildrenInTree(i, maxDepth);
  }

  /** A vector laid out in full carries the index fields and the bounds of
      the tree. */
  lemma LaidIndexed(T: seq<QuadTreeNode>, root: Bounds, maxDepth: nat)
    requires |T| == LevelSum(4, maxDepth)
    requires forall k :: 0 <= k < |T| ==> Laid(T, root, k)
    ensures Indexed(T, maxDepth) && Tiled(T)
  {
    var L := Layout(T);
    forall k | 0 <= k < |L|
      ensures L[k].children == ChildBlock(4 * k + 1) && L[k].parent == Parent(k)
      ensures L[k].depth == 0 <==> k == 0
      ensures L[k].depth < maxDepth ==> 4 * k + 4 < |L|
    {
      assert Laid(T, root, k);
      assert L[k] == Static(T[k]);
      if T[k].depth < maxDepth {
        ChildrenInTree(k, maxDepth);
      }
    }
    forall k | 0 < k < |L|
      ensures BoundsOf(L[k]) == Quadrant(BoundsOf(L[Parent(k)]), ChildSlot(k))
    {
      assert Laid(T, root, k);
      assert L[k] == Static(T[k]) && L[Parent(k)] == Static(T[Parent(k)]);
    }
  }

  /** InitChildren's childNum for child j of the node in slot k of depth d
      gives that child the children block of slot 4k + 1 + j. */
  lemma ChildArithmetic(k: nat, d: nat, childNum: int, j: nat)
    requires childNum == 4 * k + 1 + j - LevelSum(4, d)
    ensures LevelSum(4, d + 1) + childNum * 4 == 4 * (4 * k + 1 + j) + 1
  {
    LevelSumNext(4, d + 1);
  }

  /** The tree of depth maxDepth has GetDepthIndex(maxDepth) slots, and the
      children of every node above the last level lie inside it. */
  lemma ChildrenInTree(k: nat, maxDepth: nat)
    requires k < LevelSum(4, maxDepth) && DepthOf(k) < maxDepth
    ensures 4 * k + 4 < LevelSum(4, maxDepth)
  {
    SlotInBlock(k);
    LevelSumMonotone(4, DepthOf(k), maxDepth - 1);
    LevelSumNext(4, maxDepth);
  }

  /** The counting loop of GetDepthIndex: the sum of 4^i for i = 0..depth. */
  method GetDepthIndex(depth: int) returns (ret: int)
    ensures ret == LevelSum(4, depth)
  {
    var retf := 0;
    var i := 0;
    while i <= depth
      invariant 0 <= i
      invariant depth >= 0 ==> i <= depth + 1
      invariant depth < 0 ==> i == 0
      invariant retf == LevelSum(4, i - 1)
      decreases depth - i
    {
      retf := retf + Pow(4, i);
      i := i + 1;
    }
    ret := retf;
  }

  // ---------------------------------------------------------------------------
  // Classification of a collider against a node

  /** The first summand of the source's test: every face of the collider is
      less than the node's span away from the corresponding face of the node. */
  predicate FacesNear(col: Collider, node: QuadTreeNode)
  {
    var height := node.top - node.bottom;
    var width := node.right - node.left;
    && Abs(node.top - HighY(col)) < height
    && Abs(node.bottom - LowY(col)) < height
    && Abs(node.right - HighX(col)) < width
    && Abs(node.left - LowX(col)) < width
  }

  /** The second summand: the collider lies strictly inside the node. */
  predicate StrictlyInside(col: Collider, node: QuadTreeNode)
  {
    && node.top - HighY(col) > 0.0
    && node.bottom - LowY(col) < 0.0
    && node.right - HighX(col) > 0.0
    && node.left - LowX(col) < 0.0
  }

  /** 0 = no collision, 1 = partial collision, 2 = full collision. */
  function CheckShapeNodeCollide(col: Collider, node: QuadTreeNode): (colStatus: int)
    ensures 0 <= colStatus <= 2
    ensures colStatus == 2 <==> FacesNear(col, node) && StrictlyInside(col, node)
  {
    var dTop := node.top - (col.y + col.height / 2.0);
    var dBot := node.bottom - (col.y - col.height / 2.0);
    var dLeft := node.left - (col.x - col.width / 2.0);
    var dRight := node.right - (col.x + col.width / 2.0);
    var width := node.right - node.left;
    var height := node.top - node.bottom;
    (if Abs(dTop) < height && Abs(dBot) < height && Abs(dRight) < width && Abs(dLeft) < width then 1 else 0)
    + (if dTop > 0.0 && dBot < 0.0 && dRight > 0.0 && dLeft < 0.0 then 1 else 0)
  }

  /** For a collider with non-negative extents the result is 2 exactly when the
      collider lies strictly inside the node on both axes, 1 when every face is
      less than a span from the node's but containment fails, and 0 otherwise. */
  lemma ClassificationMeaning(col: Collider, node: QuadTreeNode)
    requires col.width >= 0.0 && col.height >= 0.0
    ensures var r := CheckShapeNodeCollide(col, node);
            && (r == 2 <==> node.left < LowX(col) && HighX(col) < node.right
                            && node.bottom < LowY(col) && HighY(col) < node.top)
            && (r == 1 <==> FacesNear(col, node) && !StrictlyInside(col, node))
            && (r == 0 <==> !FacesNear(col, node))
  {
    if StrictlyInside(col, node) {
      assert FacesNear(col, node);
    }
  }

  // ---------------------------------------------------------------------------
  // Subdivision geometry

  /** The bounds InitChildren gives child j: top-left, top-right, bottom-left,
      bottom-right, split at the midpoints of both axes. */
  function Quadrant(b: Bounds, j: nat): Bounds
    requires j < 4
  {
    var midX := b.left + ((b.right - b.left) / 2.0);
    var midY := b.bottom + ((b.top - b.bottom) / 2.0);
    if j == 0 then Bounds(b.left, midX, b.top, midY)
    else if j == 1 then Bounds(midX, b.right, b.top, midY)
    else if j == 2 then Bounds(b.left, midX, midY, b.bottom)
    else Bounds(midX, b.right, midY, b.bottom)
  }

  predicate InBounds(b: Bounds, x: real, y: real)
  {
    b.left <= x <= b.right && b.bottom <= y <= b.top
  }

  predicate InInterior(b: Bounds, x: real, y: real)
  {
    b.left < x < b.right && b.bottom < y < b.top
  }

  /** The four quadrants tile their parent: a point of the parent lies in some
      quadrant, every quadrant lies inside the parent, and no point lies in the
      interior of two quadrants. */
  lemma QuadrantsTile(b: Bounds, x: real, y: real)
    requires b.left <= b.right && b.bottom <= b.top
    ensures InBounds(b, x, y) <==> exists j :: 0 <= j < 4 && InBounds(Quadrant(b, j), x, y)
    ensures forall j, j' :: 0 <= j < j' < 4 ==>
              !(InInterior(Quadrant(b, j), x, y) && InInterior(Quadrant(b, j'), x, y))
  {
    var midX := b.left + ((b.right - b.left) / 2.0);
    var midY := b.bottom + ((b.top - b.bottom) / 2.0);
    if InBounds(b, x, y) {
      var j := (if x <= midX then 0 else 1) + (if y >= midY then 0 else 2);
      assert InBounds(Quadrant(b, j), x, y);
    }
  }

  // ---------------------------------------------------------------------------
  // The state of the node vector, as the rebuild sees it

  /** The part of a node that the rebuild never changes. */
  function Static(n: QuadTreeNode): QuadTreeNode
  {
    n.(shapes := [], active := false, hasChildren := false)
  }

  /** The fixed layout of a node vector: every slot without its list and flags. */
  ghost function Layout(T: seq<QuadTreeNode>): seq<QuadTreeNode>
  {
    seq(|T|, k requires 0 <= k < |T| => Static(T[k]))
  }

  /** The index fields every slot receives at start-up. */
  ghost predicate LayoutIndexed(L: seq<QuadTreeNode>, maxDepth: nat)
  {
    forall k :: 0 <= k < |L| ==>
      && L[k].children == ChildBlock(4 * k + 1)
      && L[k].parent == Parent(k)
      && (L[k].depth == 0 <==> k == 0)
      && (L[k].depth < maxDepth ==> 4 * k + 4 < |L|)
  }

  ghost predicate Indexed(T: seq<QuadTreeNode>, maxDepth: nat)
  {
    LayoutIndexed(Layout(T), maxDepth)
  }

  /** The bounds every slot receives at start-up: a child covers the quadrant
      of its parent's bounds that its place in the children block names. */
  ghost predicate LayoutTiled(L: seq<QuadTreeNode>)
  {
    forall k {:trigger Quadrant(BoundsOf(L[Parent(k)]), ChildSlot(k))} :: 0 < k < |L| ==>
      BoundsOf(L[k]) == Quadrant(BoundsOf(L[Parent(k)]), ChildSlot(k))
  }

  ghost predicate Tiled(T: seq<QuadTreeNode>)
  {
    LayoutTiled(Layout(T))
  }

  /** The bounds of child j of slot p in a tiled vector. */
  lemma TiledAt(T: seq<QuadTreeNode>, p: nat, j: nat)
    requires Tiled(T) && j < 4 && 4 * p + 1 + j < |T|
    ensures BoundsOf(T[4 * p + 1 + j]) == Quadrant(BoundsOf(T[p]), j)
  {
    var k := 4 * p + 1 + j;
    assert Parent(k) == p && ChildSlot(k) == j;
    assert BoundsOf(Layout(T)[k]) == Quadrant(BoundsOf(Layout(T)[Parent(k)]), ChildSlot(k));
    assert Layout(T)[k] == Static(T[k]) && Layout(T)[p] == Static(T[p]);
  }

  /** The index fields of one slot of an indexed vector. */
  lemma IndexedAt(T: seq<QuadTreeNode>, maxDepth: nat, k: nat)
    requires Indexed(T, maxDepth) && k < |T|
    ensures T[k].children == ChildBlock(4 * k + 1) && T[k].parent == Parent(k)
    ensures T[k].depth == 0 <==> k == 0
    ensures T[k].depth < maxDepth ==> 4 * k + 4 < |T|
  {
    assert Layout(T)[k] == Static(T[k]);
  }

  /** Replacing one slot by a node of the same layout keeps the layout. */
  lemma LayoutUpdate(T: seq<QuadTreeNode>, k: nat, n: QuadTreeNode)
    requires k < |T| && Static(n) == Static(T[k])
    ensures Layout(T[k := n]) == Layout(T)
  {
    assert forall q :: 0 <= q < |T| ==> Layout(T[k := n])[q] == Layout(T)[q];
  }

  /** ActivateNode on the node record: active, without children, the rest kept. */
  function ActivateNode(n: QuadTreeNode): (r: QuadTreeNode)
    ensures r.active && !r.hasChildren
    ensures Static(r) == Static(n) && r.shapes == n.shapes
  {
    n.(active := true, hasChildren := false)
  }

  /** DeactivateNode on the node record: inactive and with an empty list; the
      hasChildren flag is left as it was. */
  function DeactivateNode(n: QuadTreeNode): (r: QuadTreeNode)
    ensures !r.active && r.shapes == []
    ensures Static(r) == Static(n) && r.hasChildren == n.hasChildren
  {
    n.(active := false, shapes := [])
  }

  /** The push_back of shape s onto the list of slot k. */
  ghost function PushShape(T: seq<QuadTreeNode>, k: nat, s: nat): (R: seq<QuadTreeNode>)
    requires k < |T|
    ensures Layout(R) == Layout(T)
  {
    var n := T[k].(shapes := T[k].shapes + [s]);
    LayoutUpdate(T, k, n);
    T[k := n]
  }

  /** ActivateChildren: the node gets hasChildren, its four children are activated. */
  ghost function ChildrenActivated(T: seq<QuadTreeNode>, k: nat): (R: seq<QuadTreeNode>)
    requires 4 * k + 4 < |T|
    ensures Layout(R) == Layout(T)
  {
    var T1 := T[k := T[k].(hasChildren := true)];
    var T2 := T1[4 * k + 1 := ActivateNode(T1[4 * k + 1])];
    var T3 := T2[4 * k + 2 := ActivateNode(T2[4 * k + 2])];
    var T4 := T3[4 * k + 3 := ActivateNode(T3[4 * k + 3])];
    LayoutUpdate(T, k, T[k].(hasChildren := true));
    LayoutUpdate(T1, 4 * k + 1, ActivateNode(T1[4 * k + 1]));
    LayoutUpdate(T2, 4 * k + 2, ActivateNode(T2[4 * k + 2]));
    LayoutUpdate(T3, 4 * k + 3, ActivateNode(T3[4 * k + 3]));
    LayoutUpdate(T4, 4 * k + 4, ActivateNode(T4[4 * k + 4]));
    T4[4 * k + 4 := ActivateNode(T4[4 * k + 4])]
  }

  /** The subdivision of AddShape: ActivateChildren on slot k, then its list emptied. */
  ghost function Split(T: seq<QuadTreeNode>, k: nat): (R: seq<QuadTreeNode>)
    requires 4 * k + 4 < |T|
    ensures Layout(R) == Layout(T)
  {
    var T1 := ChildrenActivated(T, k);
    LayoutUpdate(T1, k, T1[k].(shapes := []));
    T1[k := T1[k].(shapes := [])]
  }

  /** The first half of UpdateQuadtree: every node deactivated, then the root
      activated. */
  ghost function Reset(T: seq<QuadTreeNode>): (R: seq<QuadTreeNode>)
    ensures Layout(R) == Layout(T)
  {
    var R := seq(|T|, k requires 0 <= k < |T| =>
      if k == 0 then ActivateNode(DeactivateNode(T[0])) else DeactivateNode(T[k]));
    assert forall q :: 0 <= q < |T| ==> Layout(R)[q] == Layout(T)[q];
    R
  }

  /** The walk of AddShape(shape, startingNode) from slot i: the node vector
      after shape s, whose collider is collider(s), has been added. */
  ghost function Insert(T: seq<QuadTreeNode>, cfg: Config, collider: nat -> Collider, s: nat, i: nat)
    : (R: seq<QuadTreeNode>)
    requires Indexed(T, cfg.maxDepth)
    ensures Layout(R) == Layout(T)
    decreases |T| - i, 1, 0
  {
    if i >= |T| then T
    else
      IndexedAt(T, cfg.maxDepth, i);
      var node := T[i];
      var result := CheckShapeNodeCollide(collider(s), node);
      if result == 0 then
        Insert(T, cfg, collider, s, i + 1)
      else if result == 1 && node.depth != 0 then
        PushShape(T, node.parent, s)
      else if |node.shapes| >= cfg.maxPerNode && node.depth < cfg.maxDepth then
        if !node.hasChildren then
          Insert(Subdivided(T, cfg, collider, i), cfg, collider, s, node.children[0])
        else
          Insert(T, cfg, collider, s, node.children[0])
      else if !node.hasChildren then
        PushShape(T, i, s)
      else
        Insert(T, cfg, collider, s, node.children[0])
  }

  /** The shapes of a list added one after the other, each walk starting at c. */
  ghost function InsertAll(T: seq<QuadTreeNode>, cfg: Config, collider: nat -> Collider, list: seq<nat>, c: nat)
    : (R: seq<QuadTreeNode>)
    requires Indexed(T, cfg.maxDepth)
    ensures Layout(R) == Layout(T)
    decreases |T| - c, 2, |list|
  {
    if list == [] then T
    else InsertAll(Insert(T, cfg, collider, list[0], c), cfg, collider, list[1..], c)
  }

  /** The subdivision of slot k together with the re-insertion of the shapes
      it held, from its first child. */
  ghost function Subdivided(T: seq<QuadTreeNode>, cfg: Config, collider: nat -> Collider, k: nat)
    : (R: seq<QuadTreeNode>)
    requires Indexed(T, cfg.maxDepth) && k < |T| && T[k].depth < cfg.maxDepth
    ensures Layout(R) == Layout(T)
    decreases |T| - k, 0, 0
  {
    IndexedAt(T, cfg.maxDepth, k);
    InsertAll(Split(T, k), cfg, collider, T[k].shapes, T[k].children[0])
  }

  /** Insert, one step at a time, in the order of the branches of the walk:
      a miss moves on to the next slot, a partial hit below the root stores
      the shape with the parent, a full (or root) hit on a full childless node
      above the depth limit subdivides it and descends, a hit on a node with
      children descends, and any other hit stores the shape in the node. */
  lemma InsertStep(T: seq<QuadTreeNode>, cfg: Config, collider: nat -> Collider, s: nat, i: nat)
    requires Indexed(T, cfg.maxDepth) && i < |T|
    ensures T[i].children == ChildBlock(4 * i + 1) && T[i].parent == Parent(i) < |T|
    ensures var r := CheckShapeNodeCollide(collider(s), T[i]);
            var n := T[i];
            var full := |n.shapes| >= cfg.maxPerNode && n.depth < cfg.maxDepth;
            && (r == 0 ==> Insert(T, cfg, collider, s, i) == Insert(T, cfg, collider, s, i + 1))
            && (r == 1 && n.depth != 0 ==> Insert(T, cfg, collider, s, i) == PushShape(T, n.parent, s))
            && (r == 2 || (r == 1 && n.depth == 0) ==>
                  if n.hasChildren then
                    Insert(T, cfg, collider, s, i) == Insert(T, cfg, collider, s, n.children[0])
                  else if full then
                    Insert(T, cfg, collider, s, i)
                    == Insert(Subdivided(T, cfg, collider, i), cfg, collider, s, n.children[0])
                  else
                    Insert(T, cfg, collider, s, i) == PushShape(T, i, s))
  {
    IndexedAt(T, cfg.maxDepth, i);
  }

  /** The steps of Insert one branch at a time, as the loop of AddShape takes
      them; a hit is a full collision or a partial one at the root. */
  ghost predicate Hit(T: seq<QuadTreeNode>, col: Collider, i: nat)
    requires i < |T|
  {
    var r := CheckShapeNodeCollide(col, T[i]);
    r == 2 || (r == 1 && T[i].depth == 0)
  }

  lemma InsertMiss(T: seq<QuadTreeNode>, cfg: Config, collider: nat -> Collider, s: nat, i: nat)
    requires Indexed(T, cfg.maxDepth) && i < |T| && CheckShapeNodeCollide(collider(s), T[i]) == 0
    ensures Insert(T, cfg, collider, s, i) == Insert(T, cfg, collider, s, i + 1)
  {
  }

  lemma InsertUp(T: seq<QuadTreeNode>, cfg: Config, collider: nat -> Collider, s: nat, i: nat)
    requires Indexed(T, cfg.maxDepth) && i < |T|
    requires CheckShapeNodeCollide(collider(s), T[i]) == 1 && T[i].depth != 0
    ensures 0 <= T[i].parent < |T| && Insert(T, cfg, collider, s, i) == PushShape(T, T[i].parent, s)
  {
    IndexedAt(T, cfg.maxDepth, i);
  }

  lemma InsertDown(T: seq<QuadTreeNode>, cfg: Config, collider: nat -> Collider, s: nat, i: nat)
    requires Indexed(T, cfg.maxDepth) && i < |T| && Hit(T, collider(s), i) && T[i].hasChildren
    ensures |T[i].children| == 4 && T[i].children[0] == 4 * i + 1
    ensures Insert(T, cfg, collider, s, i) == Insert(T, cfg, collider, s, T[i].children[0])
    ensures Insert(T, cfg, collider, s, i) == Insert(T, cfg, collider, s, 4 * i + 1)
  {
    IndexedAt(T, cfg.maxDepth, i);
  }

  lemma InsertSplit(T: seq<QuadTreeNode>, cfg: Config, collider: nat -> Collider, s: nat, i: nat)
    requires Indexed(T, cfg.maxDepth) && i < |T| && Hit(T, collider(s), i) && !T[i].hasChildren
    requires |T[i].shapes| >= cfg.maxPerNode && T[i].depth < cfg.maxDepth
    ensures |T[i].children| == 4 && T[i].children[0] == 4 * i + 1
    ensures Insert(T, cfg, collider, s, i)
            == Insert(Subdivided(T, cfg, collider, i), cfg, collider, s, T[i].children[0])
    ensures Insert(T, cfg, collider, s, i)
            == Insert(Subdivided(T, cfg, collider, i), cfg, collider, s, 4 * i + 1)
  {
    IndexedAt(T, cfg.maxDepth, i);
  }

  lemma InsertHere(T: seq<QuadTreeNode>, cfg: Config, collider: nat -> Collider, s: nat, i: nat)
    requires Indexed(T, cfg.maxDepth) && i < |T| && Hit(T, collider(s), i) && !T[i].hasChildren
    requires !(|T[i].shapes| >= cfg.maxPerNode && T[i].depth < cfg.maxDepth)
    ensures Insert(T, cfg, collider, s, i) == PushShape(T, i, s)
  {
    IndexedAt(T, cfg.maxDepth, i);
  }

  /** The walk of GetNearbyShapes from slot i: the slot whose list is returned,
      or None where the source's loop runs off the end of the vector. */
  ghost function QueryFrom(T: seq<QuadTreeNode>, maxDepth: nat, col: Collider, i: nat): (r: Option<nat>)
    requires Indexed(T, maxDepth)
    ensures r.Some? ==> r.value < |T|
    decreases |T| - i
  {
    if i >= |T| then None
    else
      IndexedAt(T, maxDepth, i);
      var result := CheckShapeNodeCollide(col, T[i]);
      if result == 0 then QueryFrom(T, maxDepth, col, i + 1)
      else if result == 1 && T[i].depth != 0 then Some(T[i].parent)
      else if !T[i].hasChildren then Some(i)
      else QueryFrom(T, maxDepth, col, T[i].children[0])
  }
}
