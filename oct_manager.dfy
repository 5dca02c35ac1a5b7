/** The oct tree manager object: the node vector in an array, the registered
    shapes, and the operations that build, clear, re-fill and query it. Every
    walk takes matchedZ: false runs the source's classification, true the one
    with matching z faces. */
module OctManager {
  import opened DepthSums
  import opened Geometry
  import opened Wrappers
  import opened OctTree
  import opened OctPlacement

  class OctTreeManager {
    var tree: array<OctTreeNode>
    var shapes: seq<nat>
    var maxDepth: nat
    var maxPerNode: nat

    ghost predicate Valid()
      reads this, tree
    {
      && tree.Length == LevelSum(8, maxDepth)
      && Indexed(tree[..], maxDepth)
      && Tiled(tree[..])
      && FlagsBelow(tree[..], maxDepth)
    }

    function Cfg(): Config
      reads this
    {
      Config(maxDepth, maxPerNode)
    }

    /** InitNode: a fresh node record, as NewNode describes it. */
    static method InitNode(depth: nat, parentIndex: int, childNum: int,
                           left: real, right: real, top: real, bottom: real, front: real, back: real)
      returns (node: OctTreeNode)
      ensures node == NewNode(depth, parentIndex, childNum, Box(left, right, top, bottom, front, back))
    {
      node := OctTreeNode([], [], 0, false, false, depth, left, right, top, bottom, front, back);
      var base := GetDepthIndex(depth);
      base := base + childNum * 8;
      node := node.(children := [base, base + 1, base + 2, base + 3, base + 4, base + 5, base + 6, base + 7],
                    parent := parentIndex);
    }

    /** InitChildren: the eight children of the node in slot nodeIndex are
        created at 8 * nodeIndex + 1 .. + 8, in the octants of its box, each
        recording nodeIndex as parent and its own children block. */
    method InitChildren(nodeIndex: nat)
      requires 8 * nodeIndex + 8 < tree.Length
      requires tree[nodeIndex].children == ChildBlock(8 * nodeIndex + 1)
      modifies tree
      ensures tree[..8 * nodeIndex + 1] == old(tree[..8 * nodeIndex + 1])
      ensures tree[8 * nodeIndex + 9..] == old(tree[8 * nodeIndex + 9..])
      ensures FreshBlock(old(tree[..]), tree[..], nodeIndex)
    {
      var node := tree[nodeIndex];
      var depthIndex := GetDepthIndex(node.depth);
      var childNum := node.children[0] - depthIndex;
      ghost var T := tree[..];
      var n0, n1, n2, n3, n4, n5, n6, n7 := ChildNodes(node, nodeIndex, childNum);
      ghost var W := T;
      SetSlot(node.children[0], n0);
      W := W[8 * nodeIndex + 1 := n0];
      SetSlot(node.children[1], n1);
      W := W[8 * nodeIndex + 2 := n1];
      SetSlot(node.children[2], n2);
      W := W[8 * nodeIndex + 3 := n2];
      SetSlot(node.children[3], n3);
      W := W[8 * nodeIndex + 4 := n3];
      SetSlot(node.children[4], n4);
      W := W[8 * nodeIndex + 5 := n4];
      SetSlot(node.children[5], n5);
      W := W[8 * nodeIndex + 6 := n5];
      SetSlot(node.children[6], n6);
      W := W[8 * nodeIndex + 7 := n6];
      SetSlot(node.children[7], n7);
      W := W[8 * nodeIndex + 8 := n7];
      BlockWritten(T, nodeIndex, node, childNum, n0, n1, n2, n3, n4, n5, n6, n7);
    }

    /** The eight InitNode calls of InitChildren, one per octant of node's box. */
    static method ChildNodes(node: OctTreeNode, nodeIndex: nat, childNum: int)
      returns (n0: OctTreeNode, n1: OctTreeNode, n2: OctTreeNode, n3: OctTreeNode,
               n4: OctTreeNode, n5: OctTreeNode, n6: OctTreeNode, n7: OctTreeNode)
      ensures EightChildren(node, nodeIndex, childNum, n0, n1, n2, n3, n4, n5, n6, n7)
    {
      var midX := node.left + ((node.right - node.left) / 2.0);
      var midY := node.bottom + ((node.top - node.bottom) / 2.0);
      var midZ := node.back + ((node.front - node.back) / 2.0);
      n0 := InitNode(node.depth + 1, nodeIndex, childNum, node.left, midX, node.top, midY, node.front, midZ);
      n1 := InitNode(node.depth + 1, nodeIndex, childNum + 1, midX, node.right, node.top, midY, node.front, midZ);
      n2 := InitNode(node.depth + 1, nodeIndex, childNum + 2, node.left, midX, midY, node.bottom, node.front, midZ);
      n3 := InitNode(node.depth + 1, nodeIndex, childNum + 3, midX, node.right, midY, node.bottom, node.front, midZ);
      n4 := InitNode(node.depth + 1, nodeIndex, childNum + 4, node.left, midX, node.top, midY, midZ, node.back);
      n5 := InitNode(node.depth + 1, nodeIndex, childNum + 5, midX, node.right, node.top, midY, midZ, node.back);
      n6 := InitNode(node.depth + 1, nodeIndex, childNum + 6, node.left, midX, midY, node.bottom, midZ, node.back);
      n7 := InitNode(node.depth + 1, nodeIndex, childNum + 7, midX, node.right, midY, node.bottom, midZ, node.back);
    }

    /** InitOctTree: every slot of a tree of GetDepthIndex(maxDepth) nodes is
        created, breadth first; every node starts inactive, childless and empty. */
    constructor InitOctTree(left: real, right: real, top: real, bottom: real, front: real, back: real,
                            maxDepth: nat, maxPerNode: nat)
      ensures this.maxDepth == maxDepth && this.maxPerNode == maxPerNode && shapes == []
      ensures tree.Length == LevelSum(8, maxDepth) && fresh(tree)
      ensures forall k :: 0 <= k < tree.Length ==> Laid(tree[..], Box(left, right, top, bottom, front, back), k)
      ensures Valid() && ActiveHangsFromRoot(tree[..]) && InactiveEmpty(tree[..])
    {
      this.maxPerNode := maxPerNode;
      this.maxDepth := maxDepth;
      shapes := [];
      var size := GetDepthIndex(maxDepth);
      LevelSumMonotone(8, 0, maxDepth);
      var nodes := new OctTreeNode[size];
      tree := nodes;
      new;
      var root := InitNode(0, 0, 0, left, right, top, bottom, front, back);
      tree[0] := root;
      var maxI := GetDepthIndex(maxDepth - 1);
      LevelSumNext(8, maxDepth);
      ghost var whole := Box(left, right, top, bottom, front, back);
      for i := 0 to maxI
        invariant tree == nodes && tree.Length == size
        invariant this.maxDepth == maxDepth && this.maxPerNode == maxPerNode && shapes == []
        invariant forall k :: 0 <= k <= 8 * i ==> Laid(tree[..], whole, k)
      {
        ghost var before := tree[..];
        InitReady(before, whole, i, maxDepth);
        InitChildren(i);
        LaidStep(before, tree[..], whole, i);
      }
      LaidIndexed(tree[..], whole, maxDepth);
      forall k | 0 <= k < tree.Length
        ensures !tree[k].active && tree[k].shapes == []
      {
        assert Laid(tree[..], whole, k);
      }
    }

    /** The public AddShape: registers a shape for the next rebuild. */
    method AddShape(shape: nat)
      modifies this
      ensures shapes == old(shapes) + [shape]
      ensures tree == old(tree) && maxDepth == old(maxDepth) && maxPerNode == old(maxPerNode)
    {
      shapes := shapes + [shape];
    }

    /** ActivateChildren on the node in slot k. */
    method ActivateChildren(k: nat)
      requires 8 * k + 8 < tree.Length && tree[k].children == ChildBlock(8 * k + 1)
      modifies tree
      ensures tree[..] == ChildrenActivated(old(tree[..]), k)
    {
      ghost var T := tree[..];
      var parent := tree[k];
      ghost var W := T[k := T[k].(hasChildren := true)];
      SetSlot(k, parent.(hasChildren := true));
      W := W[8 * k + 1 := ActivateNode(T[8 * k + 1])];
      SetSlot(parent.children[0], ActivateNode(tree[parent.children[0]]));
      W := W[8 * k + 2 := ActivateNode(T[8 * k + 2])];
      SetSlot(parent.children[1], ActivateNode(tree[parent.children[1]]));
      W := W[8 * k + 3 := ActivateNode(T[8 * k + 3])];
      SetSlot(parent.children[2], ActivateNode(tree[parent.children[2]]));
      W := W[8 * k + 4 := ActivateNode(T[8 * k + 4])];
      SetSlot(parent.children[3], ActivateNode(tree[parent.children[3]]));
      W := W[8 * k + 5 := ActivateNode(T[8 * k + 5])];
      SetSlot(parent.children[4], ActivateNode(tree[parent.children[4]]));
      W := W[8 * k + 6 := ActivateNode(T[8 * k + 6])];
      SetSlot(parent.children[5], ActivateNode(tree[parent.children[5]]));
      W := W[8 * k + 7 := ActivateNode(T[8 * k + 7])];
      SetSlot(parent.children[6], ActivateNode(tree[parent.children[6]]));
      W := W[8 * k + 8 := ActivateNode(T[8 * k + 8])];
      SetSlot(parent.children[7], ActivateNode(tree[parent.children[7]]));
      ActivatedByWrites(T, k);
    }

    /** One slot of the node vector overwritten. */
    method SetSlot(k: nat, n: OctTreeNode)
      requires k < tree.Length
      modifies tree
      ensures tree[..] == old(tree[..])[k := n]
    {
      tree[k] := n;
    }

    /** The push_back of a shape onto the list of the node in slot k. */
    method PushShapeOnto(k: nat, shape: nat)
      requires Valid() && k < tree.Length
      modifies tree
      ensures Valid() && tree[..] == PushShape(old(tree[..]), k, shape)
    {
      ghost var T := tree[..];
      tree[k] := tree[k].(shapes := tree[k].shapes + [shape]);
      assert tree[..] == PushShape(T, k, shape);
    }

    /** The private AddShape(shape, startingNode): the index walk. */
    method AddShapeFrom(collider: nat -> Collider, shape: nat, startingNode: nat, matchedZ: bool)
      requires Valid()
      modifies tree
      ensures Valid() && tree[..] == Insert(old(tree[..]), Cfg(), collider, shape, startingNode, matchedZ)
      ensures var T, c := old(tree[..]), collider(shape);
              matchedZ && Inv(T, Cfg(), collider) && Good(T, c) && OnPath(T, c, startingNode)
              && Inside(c, T[startingNode]) ==>
                Inv(tree[..], Cfg(), collider) && Grows(T, tree[..]) && Bag(tree[..]) == Bag(T) + multiset{shape}
      decreases tree.Length - startingNode, 1
    {
      var treeSize := tree.Length;
      var i := startingNode;
      ghost var cfg := Cfg();
      ghost var goal := Insert(tree[..], cfg, collider, shape, startingNode, matchedZ);
      ghost var start := tree[..];
      while i < treeSize
        invariant Valid() && Insert(tree[..], cfg, collider, shape, i, matchedZ) == goal
        decreases treeSize - i
      {
        ghost var T := tree[..];
        var currentNode := tree[i];
        var result := Classify(collider(shape), currentNode, matchedZ);
        // No collision
        if result == 0 {
          InsertMiss(T, cfg, collider, shape, i, matchedZ);
          i := i + 1;
          continue;
        }
        // Partial collision
        if result == 1 {
          if currentNode.depth != 0 {
            InsertUp(T, cfg, collider, shape, i, matchedZ);
            PushShapeOnto(currentNode.parent, shape);
            break;
          } else {
            result := 2;
          }
        }
        // Full collision
        if result == 2 {
          if |currentNode.shapes| >= maxPerNode && currentNode.depth < maxDepth {
            if !currentNode.hasChildren {
              InsertSplit(T, cfg, collider, shape, i, matchedZ);
              Subdivide(collider, i, matchedZ);
            } else {
              InsertDown(T, cfg, collider, shape, i, matchedZ);
            }
            i := currentNode.children[0];
          } else {
            if !currentNode.hasChildren {
              InsertHere(T, cfg, collider, shape, i, matchedZ);
              PushShapeOnto(i, shape);
              break;
            } else {
              InsertDown(T, cfg, collider, shape, i, matchedZ);
              i := currentNode.children[0];
            }
          }
        }
      }
      WalkAdds(start, tree[..], cfg, collider, shape, startingNode, matchedZ);
    }

    /** The subdivision inside AddShape: the node in slot k activates its
        children, its list is emptied, and every shape it held is added again
        from its first child. */
    method Subdivide(collider: nat -> Collider, k: nat, matchedZ: bool)
      requires Valid() && k < tree.Length && tree[k].depth < maxDepth
      modifies tree
      ensures Valid() && tree[..] == Subdivided(old(tree[..]), Cfg(), collider, k, matchedZ)
      ensures var T := old(tree[..]);
              matchedZ && Inv(T, Cfg(), collider) && T[k].active && !T[k].hasChildren ==>
                Inv(tree[..], Cfg(), collider) && Grows(T, tree[..]) && Bag(tree[..]) == Bag(T)
                && tree[k].hasChildren
      decreases tree.Length - k, 0
    {
      ghost var T := tree[..];
      ghost var cfg := Cfg();
      SubdivisionKeeps(T, cfg, collider, k);
      IndexedAt(T, maxDepth, k);
      ActivateChildren(k);
      var shapesTemp := tree[k].shapes;
      tree[k] := tree[k].(shapes := []);
      var first := tree[k].children[0];
      ghost var cleared := tree[..];
      assert cleared == Split(T, k);
      SplitFlags(T, maxDepth, k);
      assert shapesTemp == T[k].shapes && first == T[k].children[0];
      assert shapesTemp[0..] == shapesTemp;
      var size := |shapesTemp|;
      for j := 0 to size
        invariant Valid()
        invariant InsertAll(tree[..], cfg, collider, shapesTemp[j..], first, matchedZ)
                  == InsertAll(cleared, cfg, collider, shapesTemp, first, matchedZ)
      {
        AddShapeFrom(collider, shapesTemp[j], first, matchedZ);
        assert shapesTemp[j..][1..] == shapesTemp[j + 1..];
      }
    }

    /** ResetTree: a stack traversal from the root that clears every active
        node it pops and pushes the children of those that have children. */
    method ResetTree()
      requires Valid()
      modifies tree
      ensures Valid() && tree[..] == Swept(old(tree[..]))
    {
      ghost var T0 := tree[..];
      ghost var done: set<nat> := {};
      LevelSumMonotone(8, 0, maxDepth);
      var stack := [0];
      while stack != []
        invariant tree.Length == |T0|
        invariant SweepState(T0, tree[..], done, stack)
        decreases Pending(T0, done), |stack|
      {
        var top := stack[|stack| - 1];
        var node := tree[top];
        if node.active {
          ghost var T := tree[..];
          SweepClear(T0, T, done, stack, maxDepth);
          ghost var popped: nat := top;
          stack := stack[..|stack| - 1];
          tree[top] := ClearNode(node);
          assert tree[..] == T[popped := ClearNode(T0[popped])];
          done := done + {popped};
          if node.hasChildren {
            stack := stack + node.children;
          }
        } else {
          SweepSkip(T0, tree[..], done, stack);
          stack := stack[..|stack| - 1];
        }
      }
      SweepFinished(T0, tree[..], done);
    }

    /** UpdateOctTree: ResetTree, the root activated, every registered shape
        re-inserted from the root, in list order. */
    method UpdateOctTree(collider: nat -> Collider, matchedZ: bool)
      requires Valid()
      modifies tree
      ensures Valid() && tree[..] == InsertAll(Restarted(old(tree[..])), Cfg(), collider, shapes, 0, matchedZ)
      ensures var T0 := old(tree[..]);
              matchedZ && ActiveHangsFromRoot(T0) && InactiveEmpty(T0)
              && (forall t :: t in shapes ==> Good(T0, collider(t))) ==>
                && Inv(tree[..], Cfg(), collider) && Bag(tree[..]) == multiset(shapes)
                && Found(tree[..], maxDepth, collider, shapes) && Straddling(tree[..], collider)
                && ActiveHangsFromRoot(tree[..]) && InactiveEmpty(tree[..])
    {
      ghost var T0 := tree[..];
      ResetTree();
      LevelSumMonotone(8, 0, maxDepth);
      tree[0] := ActivateNode(tree[0]);
      ghost var reset := tree[..];
      assert reset == Restarted(old(tree[..]));
      var shapesSize := |shapes|;
      for i := 0 to shapesSize
        invariant Valid()
        invariant InsertAll(tree[..], Cfg(), collider, shapes[i..], 0, matchedZ) == InsertAll(reset, Cfg(), collider, shapes, 0, matchedZ)
      {
        AddShapeFrom(collider, shapes[i], 0, matchedZ);
        assert shapes[i..][1..] == shapes[i + 1..];
      }
      if matchedZ && ActiveHangsFromRoot(T0) && InactiveEmpty(T0) && forall t :: t in shapes ==> Good(T0, collider(t)) {
        RebuildPlaces(T0, Cfg(), collider, shapes);
      }
    }

    /** GetNearbyShapes: the same walk from the root without changing anything;
        the list of the parent on a partial hit below the root, or of a
        childless node on a full hit. */
    method GetNearbyShapes(col: Collider, matchedZ: bool) returns (nearby: Option<seq<nat>>)
      requires Valid()
      ensures match QueryFrom(tree[..], maxDepth, col, 0, matchedZ)
              case None => nearby == None
              case Some(k) => nearby == Some(tree[k].shapes)
      ensures matchedZ && Good(tree[..], col) && ActiveTree(tree[..], maxDepth) ==>
                nearby == Some(tree[Home(tree[..], col, 0)].shapes)
    {
      QueryFindsHome(tree[..], maxDepth, col);
      var treeSize := tree.Length;
      var i := 0;
      while i < treeSize
        invariant QueryFrom(tree[..], maxDepth, col, i, matchedZ) == QueryFrom(tree[..], maxDepth, col, 0, matchedZ)
        decreases treeSize - i
      {
        IndexedAt(tree[..], maxDepth, i);
        var currentNode := tree[i];
        var result := Classify(col, currentNode, matchedZ);
        // No collision
        if result == 0 {
          i := i + 1;
          continue;
        }
        // Partial collision
        if result == 1 {
          if currentNode.depth != 0 {
            return Some(tree[currentNode.parent].shapes);
          } else {
            result := 2;
          }
        }
        // Full collision
        if result == 2 {
          if !currentNode.hasChildren {
            return Some(currentNode.shapes);
          } else {
            i := currentNode.children[0];
          }
        }
      }
      return None;
    }
  }
}
