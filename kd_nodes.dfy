/** The node records of the K-D tree manager: a complete binary tree in heap
    layout whose split axis alternates with depth, the record the construction
    pushes for every slot, and the vector it builds. */
module KDNodes {
  import opened DepthSums

  datatype Axis = XAxis | YAxis

  /** Which child of its parent a node is. */
  datatype Child = Left | Right | Root

  /** The position of a shape's transform, the only part of a shape the tree reads. */
  datatype Position = Position(x: real, y: real)

  /** One slot of the node vector. The divider render handle and the divider
      extents lineStart/lineEnd are not modelled. */
  datatype KDTreeNode = KDTreeNode(
    axis: Axis,
    axisValue: real,
    left: int,
    right: int,
    parent: int,
    child: Child,
    active: bool,
    depth: nat,
    branchMod: int,
    index: int,
    start: int,
    end: int)

  // ---------------------------------------------------------------------------
  // Index arithmetic of the heap layout

  /** The slot of a node's parent; the root is its own parent. */
  function Parent(k: nat): nat
  {
    if k == 0 then 0 else (k - 1) / 2
  }

  /** A slot other than the root is the left (odd) or right (even) child of its parent. */
  lemma ParentOf(k: nat)
    requires k > 0
    ensures k % 2 == 1 ==> k == 2 * Parent(k) + 1
    ensures k % 2 == 0 ==> k == 2 * Parent(k) + 2
  {
  }

  /** The depth of the node in slot k. */
  function DepthOf(k: nat): nat
    decreases k
  {
    if k == 0 then 0 else DepthOf(Parent(k)) + 1
  }

  /** The split axis of a depth: X at even depths, Y at odd ones. */
  function AxisAt(d: nat): Axis
  {
    if d % 2 == 0 then XAxis else YAxis
  }

  /** The other axis. */
  function Flip(a: Axis): Axis
  {
    if a == XAxis then YAxis else XAxis
  }

  /** Slot k lies in the level of its own depth: LevelSum(2, d - 1) .. LevelSum(2, d) - 1. */
  lemma {:induction false} SlotInLevel(k: nat)
    ensures LevelSum(2, DepthOf(k) - 1) <= k < LevelSum(2, DepthOf(k))
    decreases k
  {
    if k > 0 {
      SlotInLevel(Parent(k));
      LevelSumNext(2, DepthOf(Parent(k)));
      LevelSumNext(2, DepthOf(k));
    }
  }

  /** A tree of depth maxDepth has LevelSum(2, maxDepth) slots: the children of
      a node above the last level lie inside it, those of a last-level node do not. */
  lemma ChildrenInTree(k: nat, maxDepth: nat)
    requires k < LevelSum(2, maxDepth)
    ensures DepthOf(k) <= maxDepth
    ensures DepthOf(k) < maxDepth <==> 2 * k + 2 < LevelSum(2, maxDepth)
    ensures DepthOf(k) < maxDepth <==> 2 * k + 1 < LevelSum(2, maxDepth)
  {
    SlotInLevel(k);
    var d := DepthOf(k);
    if maxDepth < d {
      LevelSumMonotone(2, maxDepth, d - 1);
    }
    LevelSumNext(2, d);
    LevelSumNext(2, maxDepth);
    if d < maxDepth {
      LevelSumMonotone(2, d + 1, maxDepth);
      LevelSumNext(2, d + 1);
    }
  }

  /** The record InitKDTree pushes first: the root, on the X axis. */
  function RootRecord(): KDTreeNode
  {
    KDTreeNode(XAxis, 0.0, -1, -1, -1, Root, false, 0, 0, 0, 0, 0)
  }

  /** The record InitKDTree pushes for the child on one side of a popped node
      p: the next level starts at GetDepthIndex(p.depth), the left child sits
      twice p's offset into it (the root's children at offset 0), the right one
      just after, both on the other axis, inactive, with no children and range
      0 .. 0. */
  function ChildRecord(p: KDTreeNode, side: Child): KDTreeNode
  {
    var mod := if p.parent != -1 then p.branchMod * 2 else 0;
    var branchMod := if side == Left then mod else mod + 1;
    KDTreeNode(Flip(p.axis), 0.0, -1, -1, p.index, side, false, p.depth + 1,
               branchMod, LevelSum(2, p.depth) + branchMod, 0, 0)
  }

  /** The record InitKDTree pushes for slot k: the root record, or the record
      its parent's record pushes for the side the slot lies on. */
  function Fresh(k: nat): KDTreeNode
    decreases k
  {
    if k == 0 then RootRecord()
    else ChildRecord(Fresh(Parent(k)), if k % 2 == 1 then Left else Right)
  }

  /** The pushed record of slot k names slot k, its depth and its offset
      within its level: the construction arithmetic lands every node in its
      heap slot. */
  lemma {:induction false} FreshSlot(k: nat)
    ensures Fresh(k).index == k && Fresh(k).depth == DepthOf(k)
    ensures Fresh(k).branchMod == k - LevelSum(2, DepthOf(k) - 1)
    ensures Fresh(k).parent == if k == 0 then -1 else Parent(k)
    decreases k
  {
    if k > 0 {
      var p := Parent(k);
      var side := if k % 2 == 1 then Left else Right;
      ParentOf(k);
      FreshSlot(p);
      ChildSlot(Fresh(p), p, side);
    }
  }

  /** The record pushed for a child of the node in slot p lands in slot 2p + 1
      or 2p + 2, one level down, at the offset that slot has in its level. */
  lemma ChildSlot(n: KDTreeNode, p: nat, side: Child)
    requires side != Root
    requires n.index == p && n.depth == DepthOf(p)
    requires n.branchMod == p - LevelSum(2, DepthOf(p) - 1)
    requires n.parent == if p == 0 then -1 else Parent(p)
    ensures var c := ChildRecord(n, side);
            var k := if side == Left then 2 * p + 1 else 2 * p + 2;
            && c.index == k && c.depth == DepthOf(p) + 1 && c.parent == p
            && c.branchMod == k - LevelSum(2, DepthOf(p))
  {
    var d: int := DepthOf(p);
    assert (if n.parent != -1 then n.branchMod * 2 else 0) == 2 * (p - LevelSum(2, d - 1));
    LevelSumNext(2, d);
  }

  /** The pushed record of slot k hangs on the side the slot lies on and is
      split on the X axis at even depths, on the Y axis at odd ones. */
  lemma {:induction false} FreshSide(k: nat)
    ensures Fresh(k).child == if k == 0 then Root else if k % 2 == 1 then Left else Right
    ensures Fresh(k).axis == AxisAt(DepthOf(k))
    decreases k
  {
    if k > 0 {
      var p := Parent(k);
      FreshSide(p);
      assert Fresh(k).axis == Flip(Fresh(p).axis);
      assert DepthOf(k) == DepthOf(p) + 1;
      assert (DepthOf(p) + 1) % 2 == 0 <==> DepthOf(p) % 2 == 1;
    }
  }

  /** Both halves. */
  lemma FreshFields(k: nat)
    ensures Fresh(k).index == k && Fresh(k).depth == DepthOf(k) && Fresh(k).axis == AxisAt(DepthOf(k))
    ensures Fresh(k).parent == if k == 0 then -1 else Parent(k)
    ensures Fresh(k).child == if k == 0 then Root else if k % 2 == 1 then Left else Right
    ensures Fresh(k).branchMod == k - LevelSum(2, DepthOf(k) - 1)
  {
    FreshSlot(k);
    FreshSide(k);
  }

  /** A pushed record is inactive, has no children, split value 0 and range 0 .. 0. */
  lemma FreshBlank(k: nat)
    ensures Fresh(k).left == -1 && Fresh(k).right == -1
    ensures !Fresh(k).active && Fresh(k).axisValue == 0.0 && Fresh(k).start == 0 && Fresh(k).end == 0
  {
  }

  /** The children's pushed records are the ones the parent's record pushes. */
  lemma FreshKids(k: nat)
    ensures Fresh(2 * k + 1) == ChildRecord(Fresh(k), Left)
    ensures Fresh(2 * k + 2) == ChildRecord(Fresh(k), Right)
  {
    assert Parent(2 * k + 1) == k && Parent(2 * k + 2) == k;
  }

  /** The record InitKDTree leaves in slot k of a tree of depth maxDepth: the
      fresh record with its children 2k + 1 and 2k + 2 when it lies above the
      last level. */
  function Built(k: nat, maxDepth: nat): KDTreeNode
  {
    var n := Fresh(k);
    if DepthOf(k) < maxDepth then n.(left := 2 * k + 1, right := 2 * k + 2) else n
  }

  /** The whole vector InitKDTree builds. */
  function Plan(maxDepth: nat): seq<KDTreeNode>
  {
    seq(LevelSum(2, maxDepth), k requires 0 <= k => Built(k, maxDepth))
  }

  /** The closed form: a tree of depth d has 2^(d + 1) - 1 slots. */
  lemma DepthIndexClosedForm(d: nat)
    ensures LevelSum(2, d) == Pow(2, d + 1) - 1
  {
    LevelSumClosedForm(2, d);
  }

  /** The construction shape of a record: its per-frame fields erased. */
  function Static(n: KDTreeNode): KDTreeNode
  {
    n.(axisValue := 0.0, active := false, start := 0, end := 0)
  }

  function Layout(T: seq<KDTreeNode>): seq<KDTreeNode>
  {
    seq(|T|, k requires 0 <= k < |T| => Static(T[k]))
  }

  /** The planned vector is its own construction shape. */
  lemma LayoutPlan(maxDepth: nat)
    ensures Layout(Plan(maxDepth)) == Plan(maxDepth)
  {
    forall k | 0 <= k < LevelSum(2, maxDepth)
      ensures Static(Built(k, maxDepth)) == Built(k, maxDepth)
    {
      FreshBlank(k);
    }
  }

  /** The coordinate of a position on an axis. */
  function Coord(p: Position, axis: Axis): real
  {
    if axis == XAxis then p.x else p.y
  }

  /** The coordinate of a shape's position on an axis. */
  function Key(position: nat -> Position, axis: Axis): nat -> real
  {
    (id: nat) => Coord(position(id), axis)
  }

  /** A vector with the construction shape of a tree of depth maxDepth holds in
      slot k the slot's own index, depth, axis and parent, and the links to its
      children exactly when the slot lies above the last level. */
  lemma LayoutSlot(T: seq<KDTreeNode>, maxDepth: nat, k: nat)
    requires Layout(T) == Plan(maxDepth) && k < |T|
    ensures |T| == LevelSum(2, maxDepth)
    ensures T[k].index == k && T[k].depth == DepthOf(k) && T[k].axis == AxisAt(DepthOf(k))
    ensures T[k].parent == if k == 0 then -1 else Parent(k)
    ensures DepthOf(k) < maxDepth ==> T[k].left == 2 * k + 1 && T[k].right == 2 * k + 2
    ensures DepthOf(k) >= maxDepth ==> T[k].left == -1 && T[k].right == -1
  {
    assert Static(T[k]) == Layout(T)[k] == Built(k, maxDepth);
    FreshFields(k);
    FreshBlank(k);
  }
}
