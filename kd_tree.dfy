/** The K-D tree manager: builds the node vector once by an explicit stack,
    re-splits the shape vector every frame by sorting ranges around their
    medians, and answers nearby-shape queries by descending the splits. */
module KDTree {
  import opened DepthSums
  import opened Wrappers
  import opened Sorting
  import opened KDNodes
  import opened KDBuild
  import opened KDSplit
  import opened KDQuery

  /** GetDepthIndex: 1 + 2 + ... + 2^depth, the number of slots of a tree of
      that depth; 1 for a negative depth, where the loop does not run. */
  method GetDepthIndex(depth: int) returns (ret: int)
    ensures ret == if depth < 0 then 1 else LevelSum(2, depth)
  {
    var depthIndex := 1;
    var i := 1;
    while i <= depth
      invariant 1 <= i
      invariant depth >= 0 ==> i <= depth + 1
      invariant depth < 0 ==> i == 1
      invariant depthIndex == LevelSum(2, i - 1)
      decreases depth - i
    {
      depthIndex := depthIndex + Pow(2, i);
      i := i + 1;
    }
    ret := depthIndex;
  }

  // ---------------------------------------------------------------------------
  // Sorting a range of the shape vector

  /** BubbleSort: exchange sort of positions start .. end of the vector by the
      coordinate on the axis, repeating passes until one exchanges nothing. The
      vector passed by reference is the value in and the result out: it keeps
      its elements, is unchanged outside start .. end and sorted inside it. */
  method BubbleSort(vector: seq<nat>, start: int, end: int, axis: Axis, position: nat -> Position)
    returns (r: seq<nat>)
    requires 0 <= start || end <= start || |vector| - 1 <= start
    ensures |r| == |vector| && multiset(r) == multiset(vector)
    ensures forall i :: 0 <= i < |r| && (i < start || end < i) ==> r[i] == vector[i]
    ensures SortedRange(r, start, end, Key(position, axis))
    ensures SameRuns(r, vector, Key(position, axis))
  {
    var v := vector;
    var sorted := false;
    while !sorted
      invariant |v| == |vector| && multiset(v) == multiset(vector)
      invariant SameOutside(v, vector, start, end)
      invariant sorted ==> AdjacentSorted(v, start, end, Key(position, axis))
      invariant SameRuns(v, vector, Key(position, axis))
      decreases Inversions(v, Key(position, axis)), if sorted then 0 else 1
    {
      v, sorted := BubblePass(v, start, end, axis, position);
    }
    AdjacentToSorted(v, start, end, Key(position, axis));
    r := v;
  }

  /** One pass of BubbleSort over neighbours i, i + 1 for start <= i < end
      (and inside the vector), exchanging a pair only when the left key is
      strictly greater. A pass that exchanges nothing leaves the vector as it
      was, with every neighbour pair of the range in order; one that exchanges
      removes inversions. */
  method BubblePass(vector: seq<nat>, start: int, end: int, axis: Axis, position: nat -> Position)
    returns (v: seq<nat>, sorted: bool)
    requires 0 <= start || end <= start || |vector| - 1 <= start
    ensures |v| == |vector| && multiset(v) == multiset(vector)
    ensures SameOutside(v, vector, start, end)
    ensures sorted ==> v == vector && AdjacentSorted(v, start, end, Key(position, axis))
    ensures !sorted ==> Inversions(v, Key(position, axis)) < Inversions(vector, Key(position, axis))
    ensures SameRuns(v, vector, Key(position, axis))
  {
    ghost var key := Key(position, axis);
    v := vector;
    sorted := true;
    var size := |v|;
    var i := start;
    while i < end && i < size - 1
      invariant |v| == size && multiset(v) == multiset(vector)
      invariant SameOutside(v, vector, start, end)
      invariant start <= i && (0 <= start || i == start)
      invariant i <= start || i <= end
      invariant sorted ==> v == vector && AdjacentSorted(v, start, i, key)
      invariant !sorted ==> Inversions(v, key) < Inversions(vector, key)
      invariant SameRuns(v, vector, key)
      decreases size - i
    {
      if axis == XAxis && position(v[i]).x > position(v[i + 1]).x {
        ExchangeStep(v, vector, i, start, end, key);
        v := Exchange(v, i);
        sorted := false;
      } else if axis == YAxis && position(v[i]).y > position(v[i + 1]).y {
        ExchangeStep(v, vector, i, start, end, key);
        v := Exchange(v, i);
        sorted := false;
      } else {
        assert key(v[i]) <= key(v[i + 1]);
      }
      i := i + 1;
    }
  }

  /** The exchange of neighbours i and i + 1 through a temporary. */
  method Exchange(vector: seq<nat>, i: nat) returns (v: seq<nat>)
    requires i + 1 < |vector|
    ensures v == Swap(vector, i)
  {
    v := vector;
    var temp := v[i + 1];
    v := v[i + 1 := v[i]];
    v := v[i := temp];
  }

  /** The guard of SetMaxDepth: a depth that is not negative, differs from the
      current one and does not exceed the depth the node vector was built for. */
  predicate AcceptedDepth(newMaxDepth: int, maxDepth: nat, maxMaxDepth: nat)
  {
    0 <= newMaxDepth && newMaxDepth != maxDepth && newMaxDepth <= maxMaxDepth
  }

  class KDTreeManager {
    /** The node vector, a complete tree of depth maxMaxDepth in heap layout. */
    var tree: array<KDTreeNode>
    /** The shape vector, shape ids; their positions are read through a parameter. */
    var shapes: seq<nat>
    /** The depth the tree is split to. */
    var maxDepth: nat
    /** The depth the node vector was built for. */
    var maxMaxDepth: nat

    /** The node vector has its construction shape; only the per-frame fields
        (active, split value, range) may differ. */
    ghost predicate Valid()
      reads this, tree
    {
      && tree.Length == LevelSum(2, maxMaxDepth)
      && maxDepth <= maxMaxDepth
      && Layout(tree[..]) == Plan(maxMaxDepth)
    }

    /** InitNode: a fresh, inactive record with no children, split value 0 and range 0 .. 0. */
    static method InitNode(depth: nat, parentIndex: int, branchMod: int, index: int, child: Child, axis: Axis)
      returns (node: KDTreeNode)
      ensures node == KDTreeNode(axis, 0.0, -1, -1, parentIndex, child, false, depth, branchMod, index, 0, 0)
    {
      node := KDTreeNode(axis, 0.0, -1, -1, parentIndex, child, false, depth, branchMod, index, 0, 0);
    }

    /** InitKDTree: the node vector of a tree of depth maxDepth, sized by
        GetDepthIndex and filled by BuildNodes. */
    constructor InitKDTree(maxDepth: nat)
      ensures this.maxDepth == maxDepth && maxMaxDepth == maxDepth && shapes == []
      ensures fresh(tree) && tree[..] == Plan(maxDepth)
      ensures Valid()
    {
      var size := GetDepthIndex(maxDepth);
      this.maxDepth := maxDepth;
      maxMaxDepth := maxDepth;
      shapes := [];
      tree := new KDTreeNode[size](_ => Fresh(0));
      new;
      BuildNodes();
      LayoutPlan(maxDepth);
    }

    /** The stack loop of InitKDTree: pop a node, store it, link it into its
        parent and push its two children, left first, when it lies above the
        last level. */
    method BuildNodes()
      requires tree.Length == LevelSum(2, maxDepth)
      modifies tree
      ensures tree[..] == Plan(maxDepth)
    {
      var root := InitNode(0, -1, 0, 0, Root, XAxis);
      var stack := [root];
      ghost var done: set<nat> := {};
      ghost var pending: seq<nat> := [0];
      assert stack == FreshAll(pending);
      BuildStart(tree[..], maxDepth);
      while |stack| > 0
        invariant stack == FreshAll(pending)
        invariant BuildState(tree[..], maxDepth, done, pending)
        invariant 0 in done || pending == [0]
        decreases Pending(done, tree.Length)
      {
        BuildStep(tree[..], maxDepth, done, pending);
        ghost var k := pending[|pending| - 1];
        ghost var rest := pending[..|pending| - 1];
        PendingShrinks(done, tree.Length, k);
        FreshAllPop(pending);
        var node := stack[|stack| - 1];
        stack := stack[..|stack| - 1];
        FreshFields(k);
        StoreNode(node, k);
        ChildrenInTree(k, maxDepth);
        PushedRecords(rest, k, maxDepth);
        if node.depth != maxDepth {
          stack := PushChildren(stack, node);
        }
        done := done + {k};
        pending := rest + Kids(k, maxDepth);
      }
      BuildDone(tree[..], maxDepth, done);
    }

    /** Pushes the two children of a popped node, left first: the left child
        sits at the offset twice its parent's in the next level, the right one
        just after it, both on the other axis. */
    static method PushChildren(stack: seq<KDTreeNode>, node: KDTreeNode)
      returns (stack': seq<KDTreeNode>)
      ensures stack' == stack + [ChildRecord(node, Left), ChildRecord(node, Right)]
    {
      var mod := if node.parent != -1 then node.branchMod * 2 else 0;
      var depthIndex := GetDepthIndex(node.depth);
      var index := depthIndex + mod;
      var axis := Flip(node.axis);
      var l := InitNode(node.depth + 1, node.index, index - depthIndex, index, Left, axis);
      stack' := stack + [l];
      var r := InitNode(node.depth + 1, node.index, index + 1 - depthIndex, index + 1, Right, axis);
      stack' := stack' + [r];
    }

    /** Stores a popped record and sets the child link of its parent on the
        side it hangs from. */
    method StoreNode(node: KDTreeNode, ghost k: nat)
      requires node == Fresh(k) && k < tree.Length && Parent(k) < tree.Length
      modifies tree
      ensures tree[..] == AfterPop(old(tree[..]), k)
    {
      FreshFields(k);
      tree[node.index] := node;
      if node.parent >= 0 {
        if node.child == Left {
          tree[node.parent] := tree[node.parent].(left := node.index);
        } else {
          tree[node.parent] := tree[node.parent].(right := node.index);
        }
      }
    }

    /** UpdateKDtree: every node deactivated, then the frames worked off from
        the root's, which covers the whole shape vector. Each popped node
        stores its range, sorts it along its axis, is activated with the
        median shape's coordinate and, when it lies above the split depth and
        the median is neither end of the range, pushes the part before the
        median for its left child and the part after it for its right child. */
    method UpdateKDtree(position: nat -> Position)
      requires Valid() && |shapes| > 0
      modifies this`shapes, tree
      ensures Valid()
      ensures |shapes| == old(|shapes|) && multiset(shapes) == old(multiset(shapes))
      ensures Rebuilt(tree[..], Deactivated(old(tree[..])), shapes, maxDepth, position)
    {
      DeactivateAll();
      ghost var D := tree[..];
      DeactivatedLayout(old(tree[..]));
      LevelSumNext(2, maxMaxDepth);
      var startStack := [0];
      var endStack := [|shapes| - 1];
      var nodeStack := [0];
      ghost var done: set<nat> := {};
      ghost var F := [Frame(0, |shapes| - 1, 0)];
      ghost var S0 := shapes;
      RebuildStart(D, shapes, maxDepth, position);
      while |startStack| > 0
        invariant Layout(tree[..]) == Plan(maxMaxDepth)
        invariant |shapes| == |S0| && multiset(shapes) == multiset(S0)
        invariant startStack == Starts(F) && endStack == Ends(F) && nodeStack == Nodes(F)
        invariant SplitState(tree[..], D, shapes, maxDepth, position, done, F)
        decreases Pending(done, tree.Length)
      {
        ghost var T, S := tree[..], shapes;
        TopFrame(T, D, S, maxDepth, position, done, F);
        ghost var f := F[|F| - 1];
        startStack, endStack, nodeStack := SplitStep(startStack, endStack, nodeStack, position, F);
        RebuildStep(T, D, S, shapes, maxDepth, maxMaxDepth, position, done, F);
        PendingShrinks(done, tree.Length, f.node);
        done := done + {f.node};
        F := F[..|F| - 1] + Pushed(tree[f.node], f.node, maxDepth);
      }
      RebuildDone(tree[..], D, shapes, maxDepth, position, done);
    }

    /** One iteration of UpdateKDtree's loop: the top frame popped, its node
        visited, and its halves pushed when it splits. */
    method SplitStep(starts: seq<int>, ends: seq<int>, nodes: seq<int>, position: nat -> Position, ghost F: seq<Frame>)
      returns (startStack: seq<int>, endStack: seq<int>, nodeStack: seq<int>)
      requires |F| > 0 && starts == Starts(F) && ends == Ends(F) && nodes == Nodes(F)
      requires Layout(tree[..]) == Plan(maxMaxDepth) && maxDepth <= maxMaxDepth
      requires F[|F| - 1].node < tree.Length && 0 <= F[|F| - 1].start <= F[|F| - 1].end < |shapes|
      modifies this`shapes, tree
      ensures Layout(tree[..]) == Plan(maxMaxDepth)
      ensures var f := F[|F| - 1];
              Resorted(old(shapes), shapes, f.start, f.end, Key(position, old(tree[f.node]).axis))
      ensures var f := F[|F| - 1];
              tree[..] == old(tree[..])[f.node := Visit(old(tree[f.node]), f.start, f.end,
                                                        Key(position, old(tree[f.node]).axis)(shapes[Mid(f.start, f.end)]))]
      ensures var f := F[|F| - 1];
              var G := F[..|F| - 1] + Pushed(tree[f.node], f.node, maxDepth);
              startStack == Starts(G) && endStack == Ends(G) && nodeStack == Nodes(G)
    {
      startStack, endStack, nodeStack := starts, ends, nodes;
      FramesPop(F);
      ghost var T, rest := tree[..], F[..|F| - 1];
      var start := startStack[|startStack| - 1];
      startStack := startStack[..|startStack| - 1];
      var end := endStack[|endStack| - 1];
      endStack := endStack[..|endStack| - 1];
      var node := nodeStack[|nodeStack| - 1];
      nodeStack := nodeStack[..|nodeStack| - 1];
      assert Frame(start, end, node) == F[|F| - 1];
      assert startStack == Starts(rest) && endStack == Ends(rest) && nodeStack == Nodes(rest);

      var medianIndex := VisitFrame(start, end, node, position);
      ghost var n := Visit(T[node], start, end, Key(position, T[node].axis)(shapes[medianIndex]));
      VisitLayout(T, node, start, end, Key(position, T[node].axis)(shapes[medianIndex]));
      assert tree[node] == n;

      if tree[node].depth < maxDepth && medianIndex != start && medianIndex != end {
        LayoutSlot(T, maxMaxDepth, node);
        ghost var a, b := Frame(start, medianIndex - 1, 2 * node + 1), Frame(medianIndex + 1, end, 2 * node + 2);
        assert Pushed(n, node, maxDepth) == [a, b];
        FramesPush(rest, a, b);
        startStack, endStack, nodeStack := PushHalves(startStack, endStack, nodeStack, start, medianIndex, end,
                                                      tree[node].left, tree[node].right);
        assert startStack == Starts(rest + Pushed(n, node, maxDepth));
        assert endStack == Ends(rest + Pushed(n, node, maxDepth));
        assert nodeStack == Nodes(rest + Pushed(n, node, maxDepth));
      } else {
        assert Pushed(n, node, maxDepth) == [];
        assert rest + [] == rest;
      }
    }

    /** The visit of a popped frame in UpdateKDtree: the node stores its
        range, the range is sorted along the node's axis, and the node is
        activated with the coordinate of the median shape on that axis. */
    method VisitFrame(start: int, end: int, node: nat, position: nat -> Position) returns (medianIndex: int)
      requires node < tree.Length && 0 <= start <= end < |shapes|
      modifies this`shapes, tree
      ensures medianIndex == Mid(start, end)
      ensures Resorted(old(shapes), shapes, start, end, Key(position, old(tree[node]).axis))
      ensures tree[..] == old(tree[..])[node := Visit(old(tree[node]), start, end,
                                              Key(position, old(tree[node]).axis)(shapes[medianIndex]))]
    {
      tree[node] := tree[node].(start := start, end := end);
      shapes := BubbleSort(shapes, start, end, tree[node].axis, position);
      medianIndex := start + Half(end - start);
      MidInside(start, end);
      if tree[node].axis == XAxis {
        ActivateNode(node, position(shapes[medianIndex]).x);
      }
      if tree[node].axis == YAxis {
        ActivateNode(node, position(shapes[medianIndex]).y);
      }
    }

    /** AddShape: the shape appended to the shape vector; the tree is left as
        it is until the next rebuild. */
    method AddShape(shape: nat)
      modifies this`shapes
      ensures shapes == old(shapes) + [shape]
      ensures Valid() <==> old(Valid())
    {
      shapes := shapes + [shape];
    }

    /** maxDepth: the depth the tree is split to. */
    function MaxDepth(): nat
      reads this
    {
      maxDepth
    }

    /** SetMaxDepth: a new split depth is taken, and the tree rebuilt for it,
        only when it is not negative, differs from the current one and does
        not exceed the depth the node vector was built for; otherwise nothing
        changes. */
    method SetMaxDepth(newMaxDepth: int, position: nat -> Position)
      requires Valid()
      requires AcceptedDepth(newMaxDepth, maxDepth, maxMaxDepth) ==> |shapes| > 0
      modifies this`maxDepth, this`shapes, tree
      ensures Valid()
      ensures AcceptedDepth(newMaxDepth, old(maxDepth), maxMaxDepth) ==>
                && MaxDepth() == newMaxDepth
                && |shapes| == old(|shapes|) && multiset(shapes) == old(multiset(shapes))
                && Rebuilt(tree[..], Deactivated(old(tree[..])), shapes, maxDepth, position)
      ensures !AcceptedDepth(newMaxDepth, old(maxDepth), maxMaxDepth) ==>
                MaxDepth() == old(maxDepth) && shapes == old(shapes) && tree[..] == old(tree[..])
    {
      if newMaxDepth >= 0 && newMaxDepth != maxDepth && newMaxDepth <= maxMaxDepth {
        maxDepth := newMaxDepth;
        UpdateKDtree(position);
      }
    }

    /** GetNearbyShapes: from the root, move to the left child when the
        query's coordinate on the node's axis is below the split value and to
        the right one when it is above, as long as it is off the split value
        and the node lies above the split depth; then copy out the range of
        the shape vector the node holds. */
    method GetNearbyShapes(p: Position) returns (shapeVec: Option<seq<nat>>)
      requires Valid()
      ensures 0 < tree.Length && ChildLinks(tree[..], maxDepth)
      ensures shapeVec == Nearby(tree[..], shapes, maxDepth, p)
    {
      LayoutLinks(tree[..], maxMaxDepth, maxDepth);
      LevelSumNext(2, maxMaxDepth);
      ghost var T := tree[..];
      ghost var stop := Descent(T, maxDepth, p, 0)[|Descent(T, maxDepth, p, 0)| - 1];
      shapeVec := None;
      var size := tree.Length;
      var i := 0;
      while i < size
        invariant 0 <= i < size
        invariant Descent(T, maxDepth, p, i)[|Descent(T, maxDepth, p, i)| - 1] == stop
        decreases size - i
      {
        var node := tree[i];
        var pos := if node.axis == XAxis then p.x else p.y;
        if pos != node.axisValue && node.depth < maxDepth {
          DescentStep(T, maxDepth, p, i);
          i := if pos < node.axisValue then node.left else node.right;
        } else {
          assert i == stop;
          shapeVec := CopyRange(node.start, node.end);
          break;
        }
      }
    }

    /** The corrected query: the descent of GetNearbyShapes, moving on only
        into a child that is active. On a rebuilt vector its answer is the
        range of an active node (KDQuery.ActiveNearbyRebuilt). */
    method GetActiveNearbyShapes(p: Position) returns (shapeVec: Option<seq<nat>>)
      requires Valid()
      ensures 0 < tree.Length && ChildLinks(tree[..], maxDepth)
      ensures shapeVec == ActiveNearby(tree[..], shapes, maxDepth, p)
    {
      LayoutLinks(tree[..], maxMaxDepth, maxDepth);
      LevelSumNext(2, maxMaxDepth);
      ghost var T := tree[..];
      ghost var stop := ActiveDescent(T, maxDepth, p, 0)[|ActiveDescent(T, maxDepth, p, 0)| - 1];
      shapeVec := None;
      var size := tree.Length;
      var i := 0;
      while i < size
        invariant 0 <= i < size
        invariant ActiveDescent(T, maxDepth, p, i)[|ActiveDescent(T, maxDepth, p, i)| - 1] == stop
        decreases size - i
      {
        var node := tree[i];
        var pos := if node.axis == XAxis then p.x else p.y;
        var next := if pos < node.axisValue then node.left else node.right;
        if pos != node.axisValue && node.depth < maxDepth && tree[next].active {
          assert DescendsActive(T, T[i], maxDepth, p);
          i := next;
        } else {
          assert i == stop;
          shapeVec := CopyRange(node.start, node.end);
          break;
        }
      }
    }

    /** The copy of GetNearbyShapes: the output resized to numShapes =
        end - start + 1 and filled from position start on. None stands for a
        negative count, which the resize rejects, and for a read outside the
        shape vector. */
    method CopyRange(start: int, end: int) returns (shapeVec: Option<seq<nat>>)
      ensures shapeVec == Gather(shapes, start, end)
    {
      var numShapes := end - start + 1;
      if numShapes < 0 || (numShapes > 0 && !(0 <= start && end < |shapes|)) {
        shapeVec := None;
      } else {
        var out: seq<nat> := [];
        for j := 0 to numShapes
          invariant |out| == j && forall q :: 0 <= q < j ==> out[q] == shapes[start + q]
        {
          out := out + [shapes[start + j]];
        }
        if numShapes > 0 {
          assert out == shapes[start..end + 1];
        }
        shapeVec := Some(out);
      }
    }

    /** The deactivation loop of UpdateKDtree. */
    method DeactivateAll()
      modifies tree
      ensures tree[..] == Deactivated(old(tree[..]))
    {
      var size := tree.Length;
      for i := 0 to size
        invariant forall k :: 0 <= k < i ==> tree[k] == Deactivate(old(tree[k]))
        invariant forall k :: i <= k < size ==> tree[k] == old(tree[k])
      {
        DeactivateNode(i);
      }
    }

    /** DeactivateNode: the node in slot k inactive, its split value 0. */
    method DeactivateNode(k: nat)
      requires k < tree.Length
      modifies tree
      ensures tree[..] == old(tree[..])[k := Deactivate(old(tree[k]))]
    {
      tree[k] := tree[k].(active := false, axisValue := 0.0);
    }

    /** ActivateNode: the node in slot k active with the given split value. */
    method ActivateNode(k: nat, axisValue: real)
      requires k < tree.Length
      modifies tree
      ensures tree[..] == old(tree[..])[k := old(tree[k]).(active := true, axisValue := axisValue)]
    {
      tree[k] := tree[k].(active := true, axisValue := axisValue);
    }
  }

  /** The pushes of UpdateKDtree for a node that splits: the part of its range
      before the median for its left child, then the part after it for its
      right child. */
  method PushHalves(starts: seq<int>, ends: seq<int>, nodes: seq<int>, start: int, medianIndex: int, end: int,
                    left: int, right: int)
    returns (startStack: seq<int>, endStack: seq<int>, nodeStack: seq<int>)
    ensures startStack == starts + [start, medianIndex + 1]
    ensures endStack == ends + [medianIndex - 1, end]
    ensures nodeStack == nodes + [left, right]
  {
    startStack := starts + [start];
    endStack := ends + [medianIndex - 1];
    nodeStack := nodes + [left];
    startStack := startStack + [medianIndex + 1];
    endStack := endStack + [end];
    nodeStack := nodeStack + [right];
  }
}
