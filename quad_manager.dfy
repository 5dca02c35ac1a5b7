/** The quad tree manager object: the node vector in an array, the registered
    shapes, and the operations that build, rebuild and query it. */
module QuadManager {
  import opened DepthSums
  import opened Geometry
  import opened Wrappers
  import opened QuadTree
  import opened QuadPlacement

  class QuadTreeManager {
    var tree: array<QuadTreeNode>
    var shapes: seq<nat>
    var maxDepth: nat
    var maxPerNode: nat

    ghost predicate Valid()
      reads this, tree
    {
      tree.Length == LevelSum(4, maxDepth) && Indexed(tree[..], maxDepth) && Tiled(tree[..])
    }

    function Cfg(): Config
      reads this
    {
      Config(maxDepth, maxPerNode)
    }

    /** A node record as InitNode creates it: the children block at
        GetDepthIndex(depth) + childNum * 4, activated and empty. */
    static method InitNode(depth: nat, parentIndex: int, childNum: int,
                           left: real, right: real, top: real, bottom: real)
      returns (node: QuadTreeNode)
      ensures var base := LevelSum(4, depth) + childNum * 4;
              node.children == ChildBlock(base)
      ensures node.parent == parentIndex && node.depth == depth
      ensures BoundsOf(node) == Bounds(left, right, top, bottom)
      ensures node.active && !node.hasChildren && node.shapes == []
    {
      node := QuadTreeNode([], [], 0, false, false, depth, left, right, top, bottom);
      var base := GetDepthIndex(depth);
      base := base + childNum * 4;
      node := node.(children := [base, base + 1, base + 2, base + 3], parent := parentIndex);
      node := ActivateNode(node);
    }

    /** InitChildren: the four children of the node in slot nodeIndex are
        created at 4 * nodeIndex + 1 .. + 4, in the quadrants of its bounds,
        each recording nodeIndex as parent and its own children block. */
    method InitChildren(nodeIndex: nat)
      requires 4 * nodeIndex + 4 < tree.Length
      requires tree[nodeIndex].children == ChildBlock(4 * nodeIndex + 1)
      modifies tree
      ensures tree[..4 * nodeIndex + 1] == old(tree[..4 * nodeIndex + 1])
      ensures tree[4 * nodeIndex + 5..] == old(tree[4 * nodeIndex + 5..])
      ensures FreshChild(tree[4 * nodeIndex + 1], 4 * nodeIndex + 1, nodeIndex,
                         old(tree[nodeIndex]).depth + 1, Quadrant(BoundsOf(old(tree[nodeIndex])), 0))
      ensures FreshChild(tree[4 * nodeIndex + 2], 4 * nodeIndex + 2, nodeIndex,
                         old(tree[nodeIndex]).depth + 1, Quadrant(BoundsOf(old(tree[nodeIndex])), 1))
      ensures FreshChild(tree[4 * nodeIndex + 3], 4 * nodeIndex + 3, nodeIndex,
                         old(tree[nodeIndex]).depth + 1, Quadrant(BoundsOf(old(tree[nodeIndex])), 2))
      ensures FreshChild(tree[4 * nodeIndex + 4], 4 * nodeIndex + 4, nodeIndex,
                         old(tree[nodeIndex]).depth + 1, Quadrant(BoundsOf(old(tree[nodeIndex])), 3))
    {
      var node := tree[nodeIndex];
      var depthIndex := GetDepthIndex(node.depth);
      var childNum := node.children[0] - depthIndex;
      var n0, n1, n2, n3 := ChildNodes(node, nodeIndex, childNum);
      tree[node.children[0]] := n0;
      tree[node.children[1]] := n1;
      tree[node.children[2]] := n2;
      tree[node.children[3]] := n3;
    }

    /** The four InitNode calls of InitChildren, one per quadrant of node's bounds. */
    static method ChildNodes(node: QuadTreeNode, nodeIndex: nat, childNum: int)
      returns (n0: QuadTreeNode, n1: QuadTreeNode, n2: QuadTreeNode, n3: QuadTreeNode)
      requires childNum == 4 * nodeIndex + 1 - LevelSum(4, node.depth)
      ensures FreshChild(n0, 4 * nodeIndex + 1, nodeIndex, node.depth + 1, Quadrant(BoundsOf(node), 0))
      ensures FreshChild(n1, 4 * nodeIndex + 2, nodeIndex, node.depth + 1, Quadrant(BoundsOf(node), 1))
      ensures FreshChild(n2, 4 * nodeIndex + 3, nodeIndex, node.depth + 1, Quadrant(BoundsOf(node), 2))
      ensures FreshChild(n3, 4 * nodeIndex + 4, nodeIndex, node.depth + 1, Quadrant(BoundsOf(node), 3))
    {
      var midX := node.left + ((node.right - node.left) / 2.0);
      var midY := node.bottom + ((node.top - node.bottom) / 2.0);
      n0 := InitNode(node.depth + 1, nodeIndex, childNum, node.left, midX, node.top, midY);
      ChildArithmetic(nodeIndex, node.depth, childNum, 0);
      n1 := InitNode(node.depth + 1, nodeIndex, childNum + 1, midX, node.right, node.top, midY);
      ChildArithmetic(nodeIndex, node.depth, childNum + 1, 1);
      n2 := InitNode(node.depth + 1, nodeIndex, childNum + 2, node.left, midX, midY, node.bottom);
      ChildArithmetic(nodeIndex, node.depth, childNum + 2, 2);
      n3 := InitNode(node.depth + 1, nodeIndex, childNum + 3, midX, node.right, midY, node.bottom);
      ChildArithmetic(nodeIndex, node.depth, childNum + 3, 3);
    }

    /** InitQuadTree: every slot of a tree of GetDepthIndex(maxDepth) nodes is
        created, breadth first; every node starts active, childless and empty. */
    constructor InitQuadTree(left: real, right: real, top: real, bottom: real,
                             maxDepth: nat, maxPerNode: nat)
      ensures this.maxDepth == maxDepth && this.maxPerNode == maxPerNode && shapes == []
      ensures tree.Length == LevelSum(4, maxDepth) && fresh(tree)
      ensures forall k :: 0 <= k < tree.Length ==> Laid(tree[..], Bounds(left, right, top, bottom), k)
      ensures Valid()
    {
      this.maxPerNode := maxPerNode;
      this.maxDepth := maxDepth;
      shapes := [];
      var size := GetDepthIndex(maxDepth);
      LevelSumMonotone(4, 0, maxDepth);
      var nodes := new QuadTreeNode[size];
      tree := nodes;
      new;
      var root := InitNode(0, 0, 0, left, right, top, bottom);
      tree[0] := root;
      var maxI := GetDepthIndex(maxDepth - 1);
      LevelSumNext(4, maxDepth);
      ghost var whole := Bounds(left, right, top, bottom);
      for i := 0 to maxI
        invariant tree == nodes && tree.Length == size
        invariant this.maxDepth == maxDepth && this.maxPerNode == maxPerNode && shapes == []
        invariant forall k :: 0 <= k <= 4 * i ==> Laid(tree[..], whole, k)
      {
        ghost var before := tree[..];
        InitReady(before, whole, i, maxDepth);
        InitChildren(i);
        LaidStep(before, tree[..], whole, i);
      }
      LaidIndexed(tree[..], whole, maxDepth);
    }

    /** The public AddShape: registers a shape for the next rebuild. */
    method AddShape(shape: nat)
      modifies this
      ensures shapes == old(shapes) + [shape]
      ensures tree == old(tree) && maxDepth == old(maxDepth) && maxPerNode == old(maxPerNode)
    {
      shapes := shapes + [shape];
    }

    /** ActivateChildren on the node in slot k. */
    method ActivateChildren(k: nat)
      requires Valid() && 4 * k + 4 < tree.Length
      modifies tree
      ensures Valid() && tree[..] == ChildrenActivated(old(tree[..]), k)
    {
      ghost var T := tree[..];
      IndexedAt(T, maxDepth, k);
      var parent := tree[k];
      tree[k] := parent.(hasChildren := true);
      tree[parent.children[0]] := ActivateNode(tree[parent.children[0]]);
      tree[parent.children[1]] := ActivateNode(tree[parent.children[1]]);
      tree[parent.children[2]] := ActivateNode(tree[parent.children[2]]);
      tree[parent.children[3]] := ActivateNode(tree[parent.children[3]]);
      assert tree[..] == ChildrenActivated(T, k);
    }

    /** The push_back of a shape onto the list of the node in slot k. */
    method PushShapeOnto(k: nat, shape: nat)
      requires Valid() && k < tree.Length
      modifies tree
      ensures Valid() && tree[..] == PushShape(old(tree[..]), k, shape)
    {
      ghost var T := tree[..];
      tree[k] := tree[k].(shapes := tree[k].shapes + [shape]);
      assert tree[..] == PushShape(T, k, shape);
    }

    /** The private AddShape(shape, startingNode): the index walk. */
    method AddShapeFrom(collider: nat -> Collider, shape: nat, startingNode: nat)
      requires Valid()
      modifies tree
      ensures Valid() && tree[..] == Insert(old(tree[..]), Cfg(), collider, shape, startingNode)
      ensures var T, c := old(tree[..]), collider(shape);
              Inv(T, Cfg(), collider) && Good(T, c) && OnPath(T, c, startingNode) && Inside(c, T[startingNode]) ==>
                Inv(tree[..], Cfg(), collider) && Grows(T, tree[..]) && Bag(tree[..]) == Bag(T) + multiset{shape}
      decreases tree.Length - startingNode, 1
    {
      var treeSize := tree.Length;
      var i := startingNode;
      ghost var cfg := Cfg();
      ghost var goal := Insert(tree[..], cfg, collider, shape, startingNode);
      ghost var start := tree[..];
      while i < treeSize
        invariant Valid() && Insert(tree[..], cfg, collider, shape, i) == goal
        decreases treeSize - i
      {
        ghost var T := tree[..];
        var currentNode := tree[i];
        var result := CheckShapeNodeCollide(collider(shape), currentNode);
        // No collision
        if result == 0 {
          InsertMiss(T, cfg, collider, shape, i);
          i := i + 1;
          continue;
        }
        // Partial collision
        if result == 1 {
          if currentNode.depth != 0 {
            InsertUp(T, cfg, collider, shape, i);
            PushShapeOnto(currentNode.parent, shape);
            break;
          } else {
            result := 2;
          }
        }
        // Full collision
        if result == 2 {
          if |currentNode.shapes| >= maxPerNode && currentNode.depth < maxDepth {
            if !currentNode.hasChildren {
              InsertSplit(T, cfg, collider, shape, i);
              Subdivide(collider, i);
            } else {
              InsertDown(T, cfg, collider, shape, i);
            }
            i := currentNode.children[0];
          } else {
            if !currentNode.hasChildren {
              InsertHere(T, cfg, collider, shape, i);
              PushShapeOnto(i, shape);
              break;
            } else {
              InsertDown(T, cfg, collider, shape, i);
              i := currentNode.children[0];
            }
          }
        }
      }
      WalkAdds(start, tree[..], cfg, collider, shape, startingNode);
    }

    /** The subdivision inside AddShape: the node in slot k activates its
        children, its list is emptied, and every shape it held is added again
        from its first child. */
    method Subdivide(collider: nat -> Collider, k: nat)
      requires Valid() && k < tree.Length && tree[k].depth < maxDepth
      modifies tree
      ensures Valid() && tree[..] == Subdivided(old(tree[..]), Cfg(), collider, k)
      ensures var T := old(tree[..]);
              Inv(T, Cfg(), collider) && T[k].active && !T[k].hasChildren ==>
                Inv(tree[..], Cfg(), collider) && Grows(T, tree[..]) && Bag(tree[..]) == Bag(T)
                && tree[k].hasChildren
      decreases tree.Length - k, 0
    {
      ghost var T := tree[..];
      ghost var cfg := Cfg();
      SubdivisionKeeps(T, cfg, collider, k);
      IndexedAt(T, maxDepth, k);
      ActivateChildren(k);
      var shapesTemp := tree[k].shapes;
      tree[k] := tree[k].(shapes := []);
      var first := tree[k].children[0];
      ghost var cleared := tree[..];
      assert cleared == Split(T, k);
      assert shapesTemp == T[k].shapes && first == T[k].children[0];
      assert shapesTemp[0..] == shapesTemp;
      var size := |shapesTemp|;
      for j := 0 to size
        invariant Valid()
        invariant InsertAll(tree[..], cfg, collider, shapesTemp[j..], first)
                  == InsertAll(cleared, cfg, collider, shapesTemp, first)
      {
        AddShapeFrom(collider, shapesTemp[j], first);
        assert shapesTemp[j..][1..] == shapesTemp[j + 1..];
      }
    }

    /** UpdateQuadtree: all nodes deactivated, the root re-activated, every
        registered shape re-inserted from the root, in list order. */
    method UpdateQuadtree(collider: nat -> Collider)
      requires Valid()
      modifies tree
      ensures Valid() && tree[..] == InsertAll(Reset(old(tree[..])), Cfg(), collider, shapes, 0)
      ensures (forall t :: t in shapes ==> Good(old(tree[..]), collider(t))) ==>
                && Inv(tree[..], Cfg(), collider) && Bag(tree[..]) == multiset(shapes)
                && Found(tree[..], maxDepth, collider, shapes) && Straddling(tree[..], collider)
    {
      ghost var T0 := tree[..];
      var treeSize := tree.Length;
      for i := 0 to treeSize
        invariant forall k :: 0 <= k < i ==> tree[k] == DeactivateNode(old(tree[k]))
        invariant forall k :: i <= k < treeSize ==> tree[k] == old(tree[k])
      {
        tree[i] := DeactivateNode(tree[i]);
      }
      LevelSumMonotone(4, 0, maxDepth);
      tree[0] := ActivateNode(tree[0]);
      ghost var reset := tree[..];
      assert reset == Reset(old(tree[..]));
      var shapesSize := |shapes|;
      for i := 0 to shapesSize
        invariant Valid()
        invariant InsertAll(tree[..], Cfg(), collider, shapes[i..], 0) == InsertAll(reset, Cfg(), collider, shapes, 0)
      {
        AddShapeFrom(collider, shapes[i], 0);
        assert shapes[i..][1..] == shapes[i + 1..];
      }
      if forall t :: t in shapes ==> Good(T0, collider(t)) {
        RebuildPlaces(T0, Cfg(), collider, shapes);
      }
    }

    /** GetNearbyShapes: the same walk from the root without changing anything;
        the list of the parent on a partial hit below the root, or of a
        childless node on a full hit. */
    method GetNearbyShapes(col: Collider) returns (nearby: Option<seq<nat>>)
      requires Valid()
      ensures match QueryFrom(tree[..], maxDepth, col, 0)
              case None => nearby == None
              case Some(k) => nearby == Some(tree[k].shapes)
      ensures Good(tree[..], col) && ActiveTree(tree[..], maxDepth) ==>
                nearby == Some(tree[Home(tree[..], col, 0)].shapes)
    {
      QueryFindsHome(tree[..], maxDepth, col);
      var treeSize := tree.Length;
      var i := 0;
      while i < treeSize
        invariant QueryFrom(tree[..], maxDepth, col, i) == QueryFrom(tree[..], maxDepth, col, 0)
        decreases treeSize - i
      {
        IndexedAt(tree[..], maxDepth, i);
        var currentNode := tree[i];
        var result := CheckShapeNodeCollide(col, currentNode);
        // No collision
        if result == 0 {
          i := i + 1;
          continue;
        }
        // Partial collision
        if result == 1 {
          if currentNode.depth != 0 {
            return Some(tree[currentNode.parent].shapes);
          } else {
            result := 2;
          }
        }
        // Full collision
        if result == 2 {
          if !currentNode.hasChildren {
            return Some(currentNode.shapes);
          } else {
            i := currentNode.children[0];
          }
        }
      }
      return None;
    }
  }
}
