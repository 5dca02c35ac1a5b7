/** The nearby-shape query of the K-D tree manager: the descent from the root
    along the split values, and the range of the shape vector held by the node
    it stops at. */
module KDQuery {
  import opened DepthSums
  import opened Wrappers
  import opened KDNodes
  import opened Sorting
  import opened KDSplit

  /** Every node above the split depth links to its heap children, both inside the vector. */
  predicate ChildLinks(T: seq<KDTreeNode>, maxDepth: nat)
  {
    forall k :: 0 <= k < |T| && T[k].depth < maxDepth ==>
      T[k].left == 2 * k + 1 && T[k].right == 2 * k + 2 && 2 * k + 2 < |T|
  }

  /** A vector with the construction shape links every node above any split
      depth up to the one it was built for. */
  lemma LayoutLinks(T: seq<KDTreeNode>, maxMaxDepth: nat, maxDepth: nat)
    requires Layout(T) == Plan(maxMaxDepth) && maxDepth <= maxMaxDepth
    ensures ChildLinks(T, maxDepth)
  {
    forall k | 0 <= k < |T| && T[k].depth < maxDepth
      ensures T[k].left == 2 * k + 1 && T[k].right == 2 * k + 2 && 2 * k + 2 < |T|
    {
      LayoutSlot(T, maxMaxDepth, k);
      ChildrenInTree(k, maxMaxDepth);
    }
  }

  /** The query moves on from node n when it is off the node's split value and
      the node lies above the split depth. */
  predicate Descends(n: KDTreeNode, maxDepth: nat, p: Position)
  {
    Coord(p, n.axis) != n.axisValue && n.depth < maxDepth
  }

  /** The slot the query moves to from node n: the left child when it lies
      before the split value, the right one otherwise. */
  function Next(n: KDTreeNode, p: Position): int
  {
    if Coord(p, n.axis) < n.axisValue then n.left else n.right
  }

  /** The slots GetNearbyShapes visits from slot i for a query at p: each one
      it moves on from followed by the child it moves to, ending at the first
      one it stops at. */
  function Descent(T: seq<KDTreeNode>, maxDepth: nat, p: Position, i: nat): (r: seq<nat>)
    requires ChildLinks(T, maxDepth) && i < |T|
    ensures 0 < |r| && r[0] == i
    ensures forall j :: 0 <= j < |r| ==> r[j] < |T|
    ensures forall j :: 0 <= j < |r| - 1 ==> Descends(T[r[j]], maxDepth, p) && r[j + 1] == Next(T[r[j]], p)
    ensures !Descends(T[r[|r| - 1]], maxDepth, p)
    decreases |T| - i
  {
    if Descends(T[i], maxDepth, p) then [i] + Descent(T, maxDepth, p, Next(T[i], p)) else [i]
  }

  /** Moving on from slot i keeps the slot the descent stops at. */
  lemma DescentStep(T: seq<KDTreeNode>, maxDepth: nat, p: Position, i: nat)
    requires ChildLinks(T, maxDepth) && i < |T| && Descends(T[i], maxDepth, p)
    ensures i < Next(T[i], p) < |T|
    ensures var r, r' := Descent(T, maxDepth, p, i), Descent(T, maxDepth, p, Next(T[i], p));
            r[|r| - 1] == r'[|r'| - 1]
  {
  }

  /** The shapes GetNearbyShapes copies out of S for a node with range
      start .. end: numShapes = end - start + 1 of them from position start
      on. None stands for a negative count, which the resize of the output
      vector rejects, and for a range that reads outside the shape vector. */
  function Gather(S: seq<nat>, start: int, end: int): (r: Option<seq<nat>>)
    ensures r.None? <==> end - start + 1 < 0 || (end - start + 1 > 0 && !(0 <= start && end < |S|))
    ensures r.Some? ==> |r.value| == end - start + 1
    ensures r.Some? ==> forall j :: 0 <= j < |r.value| ==> r.value[j] == S[start + j]
  {
    var numShapes := end - start + 1;
    if numShapes < 0 then None
    else if numShapes == 0 then Some([])
    else if 0 <= start && end < |S| then Some(S[start..end + 1])
    else None
  }

  /** GetNearbyShapes as written: the shapes of the node the descent from the root stops at. */
  function Nearby(T: seq<KDTreeNode>, S: seq<nat>, maxDepth: nat, p: Position): Option<seq<nat>>
    requires ChildLinks(T, maxDepth) && 0 < |T|
  {
    var r := Descent(T, maxDepth, p, 0);
    Gather(S, T[r[|r| - 1]].start, T[r[|r| - 1]].end)
  }

  // ---------------------------------------------------------------------------
  // The corrected descent

  /** The corrected query moves on from node n only into a child that is active. */
  predicate DescendsActive(T: seq<KDTreeNode>, n: KDTreeNode, maxDepth: nat, p: Position)
  {
    Descends(n, maxDepth, p) && 0 <= Next(n, p) < |T| && T[Next(n, p)].active
  }

  /** The slots the corrected query visits from slot i. */
  function ActiveDescent(T: seq<KDTreeNode>, maxDepth: nat, p: Position, i: nat): (r: seq<nat>)
    requires ChildLinks(T, maxDepth) && i < |T|
    ensures 0 < |r| && r[0] == i
    ensures forall j :: 0 <= j < |r| ==> r[j] < |T|
    ensures forall j :: 0 <= j < |r| - 1 ==> DescendsActive(T, T[r[j]], maxDepth, p) && r[j + 1] == Next(T[r[j]], p)
    ensures !DescendsActive(T, T[r[|r| - 1]], maxDepth, p)
    decreases |T| - i
  {
    if DescendsActive(T, T[i], maxDepth, p) then [i] + ActiveDescent(T, maxDepth, p, Next(T[i], p)) else [i]
  }

  /** The corrected query: the shapes of the node the corrected descent stops at. */
  function ActiveNearby(T: seq<KDTreeNode>, S: seq<nat>, maxDepth: nat, p: Position): Option<seq<nat>>
    requires ChildLinks(T, maxDepth) && 0 < |T|
  {
    var r := ActiveDescent(T, maxDepth, p, 0);
    Gather(S, T[r[|r| - 1]].start, T[r[|r| - 1]].end)
  }

  /** The shapes at positions lo .. hi of S lie on the query's side of node a's
      split: at or before the split value when the query is before it, at or
      after it when the query is after it. */
  ghost predicate OnQuerySide(a: KDTreeNode, p: Position, S: seq<nat>, lo: int, hi: int, position: nat -> Position)
  {
    forall q :: lo <= q <= hi && 0 <= q < |S| ==>
      && (Coord(p, a.axis) < a.axisValue ==> Coord(position(S[q]), a.axis) <= a.axisValue)
      && (Coord(p, a.axis) > a.axisValue ==> a.axisValue <= Coord(position(S[q]), a.axis))
  }

  /** From an active slot of a rebuilt vector the corrected descent stops at an
      active node whose range lies within the slot's, on the query's side of
      every split it passes. */
  lemma {:induction false} ActiveDescentSide(T: seq<KDTreeNode>, D: seq<KDTreeNode>, S: seq<nat>, maxDepth: nat,
                                             position: nat -> Position, p: Position, i: nat)
    requires Rebuilt(T, D, S, maxDepth, position) && ChildLinks(T, maxDepth)
    requires i < |T| && T[i].active
    ensures var r := ActiveDescent(T, maxDepth, p, i);
            var L := T[r[|r| - 1]];
            && L.active && T[i].start <= L.start && L.end <= T[i].end && 0 <= L.start <= L.end < |S|
            && forall j :: 0 <= j < |r| - 1 ==> OnQuerySide(T[r[j]], p, S, L.start, L.end, position)
    decreases |T| - i
  {
    var r := ActiveDescent(T, maxDepth, p, i);
    PlacedInside(T[i], S, maxDepth, position);
    if DescendsActive(T, T[i], maxDepth, p) {
      var n := T[i];
      var c := Next(n, p);
      assert r == [i] + ActiveDescent(T, maxDepth, p, c);
      ActiveDescentSide(T, D, S, maxDepth, position, p, c);
      var L := T[r[|r| - 1]];
      assert c == 2 * i + 1 || c == 2 * i + 2;
      assert Parent(c) == i;
      assert Pushes(n, maxDepth) && ChildRange(n, c, T[c].start, T[c].end);
      assert Placed(n, S, maxDepth, position);
      SplitSide(n, S, maxDepth, position, p, i, c, T[c].start, T[c].end, L.start, L.end);
    }
  }

  /** A child range of a node that pushes lies on the query's side of its split
      when the query moves into that child. */
  lemma SplitSide(n: KDTreeNode, S: seq<nat>, maxDepth: nat, position: nat -> Position, p: Position,
                  i: nat, c: nat, start: int, end: int, lo: int, hi: int)
    requires Placed(n, S, maxDepth, position) && Pushes(n, maxDepth) && Coord(p, n.axis) != n.axisValue
    requires n.left == 2 * i + 1 && n.right == 2 * i + 2 && c == Next(n, p)
    requires ChildRange(n, c, start, end) && start <= lo && hi <= end
    ensures OnQuerySide(n, p, S, lo, hi, position)
  {
    var m := Mid(n.start, n.end);
    var key := Key(position, n.axis);
    assert SplitAround(S, n.start, m, n.end, key, n.axisValue);
    forall q | lo <= q <= hi && 0 <= q < |S|
      ensures Coord(p, n.axis) < n.axisValue ==> Coord(position(S[q]), n.axis) <= n.axisValue
      ensures Coord(p, n.axis) > n.axisValue ==> n.axisValue <= Coord(position(S[q]), n.axis)
    {
      if Coord(p, n.axis) < n.axisValue {
        assert c % 2 == 1;
        assert key(S[q]) <= n.axisValue;
      } else {
        assert c % 2 == 0;
        assert n.axisValue <= key(S[q]);
      }
    }
  }

  /** The corrected query answers every query on a rebuilt vector with the
      range of an active node, whose shapes lie on the query's side of every
      split the descent passes. */
  lemma ActiveNearbyRebuilt(T: seq<KDTreeNode>, D: seq<KDTreeNode>, S: seq<nat>, maxDepth: nat,
                            position: nat -> Position, p: Position)
    requires Rebuilt(T, D, S, maxDepth, position) && ChildLinks(T, maxDepth)
    ensures var r := ActiveDescent(T, maxDepth, p, 0);
            var L := T[r[|r| - 1]];
            && L.active && 0 <= L.start <= L.end < |S|
            && ActiveNearby(T, S, maxDepth, p) == Some(S[L.start..L.end + 1])
            && forall j :: 0 <= j < |r| - 1 ==> OnQuerySide(T[r[j]], p, S, L.start, L.end, position)
  {
    ActiveDescentSide(T, D, S, maxDepth, position, p, 0);
    DescentAnswer(T, S, maxDepth, position, p);
  }

  /** A corrected descent from the root that stops at an active node with a
      range inside the vector answers with that range. */
  lemma DescentAnswer(T: seq<KDTreeNode>, S: seq<nat>, maxDepth: nat, position: nat -> Position, p: Position)
    requires ChildLinks(T, maxDepth) && 0 < |T|
    requires var r := ActiveDescent(T, maxDepth, p, 0);
             var L := T[r[|r| - 1]];
             && L.active && T[0].start <= L.start && L.end <= T[0].end && 0 <= L.start <= L.end < |S|
             && forall j :: 0 <= j < |r| - 1 ==> OnQuerySide(T[r[j]], p, S, L.start, L.end, position)
    ensures var r := ActiveDescent(T, maxDepth, p, 0);
            var L := T[r[|r| - 1]];
            && L.active && 0 <= L.start <= L.end < |S|
            && ActiveNearby(T, S, maxDepth, p) == Some(S[L.start..L.end + 1])
            && forall j :: 0 <= j < |r| - 1 ==> OnQuerySide(T[r[j]], p, S, L.start, L.end, position)
  {
    var r := ActiveDescent(T, maxDepth, p, 0);
    var L := T[r[|r| - 1]];
    GatherInside(S, L.start, L.end);
  }

  /** A placed node's range lies inside the vector. */
  lemma PlacedInside(n: KDTreeNode, S: seq<nat>, maxDepth: nat, position: nat -> Position)
    requires Placed(n, S, maxDepth, position)
    ensures 0 <= n.start <= n.end < |S|
  {
  }

  /** A non-empty range inside the vector is copied out whole. */
  lemma GatherInside(S: seq<nat>, start: int, end: int)
    requires 0 <= start <= end < |S|
    ensures Gather(S, start, end) == Some(S[start..end + 1])
  {
  }

  // ---------------------------------------------------------------------------
  // A rebuilt vector on which the query as written leaves the query's side

  /** Shapes 0, 1, 2 lie at x = 0, 1, 2 on the line y = 0. */
  predicate OnLine(position: nat -> Position)
  {
    position(0) == Position(0.0, 0.0) && position(1) == Position(1.0, 0.0) && position(2) == Position(2.0, 0.0)
  }

  /** The vector of depth 2 rebuilt over the shapes 0, 1, 2 on a line: the
      root splits at x = 1, its children hold one shape each and do not push,
      the last level keeps the records InitKDTree built, deactivated. Fields:
      axis, split value, left, right, parent, side, active, depth, branchMod,
      index, start, end. */
  function LineTree(): seq<KDTreeNode>
  {
    [ KDTreeNode(XAxis, 1.0, 1, 2, -1, Root, true, 0, 0, 0, 0, 2),
      KDTreeNode(YAxis, 0.0, 3, 4, 0, Left, true, 1, 0, 1, 0, 0),
      KDTreeNode(YAxis, 0.0, 5, 6, 0, Right, true, 1, 1, 2, 2, 2),
      KDTreeNode(XAxis, 0.0, -1, -1, 1, Left, false, 2, 0, 3, 0, 0),
      KDTreeNode(XAxis, 0.0, -1, -1, 1, Right, false, 2, 1, 4, 0, 0),
      KDTreeNode(XAxis, 0.0, -1, -1, 2, Left, false, 2, 2, 5, 0, 0),
      KDTreeNode(XAxis, 0.0, -1, -1, 2, Right, false, 2, 3, 6, 0, 0) ]
  }

  /** The line tree has the construction shape of a tree of depth 2, and its
      last level holds the built records, deactivated. */
  lemma LineTreeShape()
    ensures Layout(LineTree()) == Plan(2) && ChildLinks(LineTree(), 2)
    ensures forall k :: 3 <= k < 7 ==> LineTree()[k] == Deactivated(Plan(2))[k]
  {
    var T := LineTree();
    LevelSumNext(2, 2);
    LevelSumNext(2, 1);
    assert LevelSum(2, 1) == 3 && LevelSum(2, 2) == 7;
    forall k | 0 <= k < 7
      ensures Static(T[k]) == Built(k, 2)
    {
      LineShapeSlot(k);
    }
  }

  /** One slot of the line tree has the record InitKDTree builds for it. */
  lemma LineShapeSlot(k: nat)
    requires k < 7
    ensures Static(LineTree()[k]) == Built(k, 2)
  {
    var n := Fresh(k);
    FreshFields(k);
    FreshBlank(k);
    LineSlotDepth(k);
    LevelSumNext(2, 1);
    LevelSumNext(2, 0);
    assert LevelSum(2, 1) == 3 && LevelSum(2, 0) == 1 && LevelSum(2, -1) == 0;
  }

  /** The depths of the seven slots, and the offsets of the two lower levels. */
  lemma LineSlotDepth(k: nat)
    requires k < 7
    ensures DepthOf(k) == if k == 0 then 0 else if k < 3 then 1 else 2
  {
    if k > 0 {
      assert Parent(k) == if k < 3 then 0 else if k < 5 then 1 else 2;
    }
  }

  /** The root of the line tree is placed: shape 1 is the median of 0 .. 2 on x. */
  lemma LineRootPlaced(n: KDTreeNode, position: nat -> Position)
    requires OnLine(position)
    requires n.start == 0 && n.end == 2 && n.axis == XAxis && n.axisValue == 1.0 && n.depth == 0
    ensures Placed(n, [0, 1, 2], 2, position)
  {
    var key := Key(position, XAxis);
    assert Mid(0, 2) == 1;
    assert key(0) == position(0).x && key(1) == position(1).x && key(2) == position(2).x;
    assert SplitAround([0, 1, 2], 0, 1, 2, key, 1.0);
  }

  /** A one-shape node of the line tree on the y axis is placed: every shape is at y = 0. */
  lemma LineLeafPlaced(n: KDTreeNode, q: nat, position: nat -> Position)
    requires OnLine(position)
    requires n.start == q && n.end == q && q < 3 && n.axis == YAxis && n.axisValue == 0.0
    ensures Placed(n, [0, 1, 2], 2, position)
  {
    var key := Key(position, YAxis);
    assert Mid(q, q) == q;
    assert key([0, 1, 2][q]) == position([0, 1, 2][q]).y;
    assert SortedRange([0, 1, 2], q, q, key);
  }

  /** Slots 1 and 2 of the line tree are active below the root, which pushes
      their ranges; the last level is inactive below the nodes that do not push. */
  lemma LineLinks()
    ensures forall k {:trigger Parent(k)} :: 0 < k < |LineTree()| ==>
              (LineTree()[k].active <==> LineTree()[Parent(k)].active && Pushes(LineTree()[Parent(k)], 2))
    ensures forall k {:trigger Parent(k)} :: 0 < k < |LineTree()| && LineTree()[k].active ==>
              ChildRange(LineTree()[Parent(k)], k, LineTree()[k].start, LineTree()[k].end)
  {
    forall k {:trigger Parent(k)} | 0 < k < 7
      ensures LineTree()[k].active <==> LineTree()[Parent(k)].active && Pushes(LineTree()[Parent(k)], 2)
      ensures LineTree()[k].active ==> ChildRange(LineTree()[Parent(k)], k, LineTree()[k].start, LineTree()[k].end)
    {
      LineLink(k);
    }
  }

  /** The link of one slot below the root of the line tree to its parent. */
  lemma LineLink(k: nat)
    requires 0 < k < 7
    ensures LineTree()[k].active <==> LineTree()[Parent(k)].active && Pushes(LineTree()[Parent(k)], 2)
    ensures LineTree()[k].active ==> ChildRange(LineTree()[Parent(k)], k, LineTree()[k].start, LineTree()[k].end)
  {
    var T := LineTree();
    var n := T[Parent(k)];
    if k < 3 {
      assert Parent(k) == 0 by { if k == 1 { assert Parent(1) == 0; } else { assert Parent(2) == 0; } }
      assert n.start == 0 && n.end == 2 && n.depth == 0;
      assert Mid(n.start, n.end) == 1;
    } else {
      assert Parent(k) == 1 || Parent(k) == 2 by {
        if k == 3 { assert Parent(3) == 1; }
        else if k == 4 { assert Parent(4) == 1; }
        else if k == 5 { assert Parent(5) == 2; }
        else { assert Parent(6) == 2; }
      }
      assert n.start == n.end;
      MidInside(n.start, n.end);
    }
  }

  /** The active slots of the line tree are placed. */
  lemma LineAllPlaced(position: nat -> Position)
    requires OnLine(position)
    ensures forall k :: 0 <= k < |LineTree()| && LineTree()[k].active ==> Placed(LineTree()[k], [0, 1, 2], 2, position)
  {
    var T := LineTree();
    LineRootPlaced(T[0], position);
    LineLeafPlaced(T[1], 0, position);
    LineLeafPlaced(T[2], 2, position);
    forall k | 0 <= k < |T| && T[k].active
      ensures Placed(T[k], [0, 1, 2], 2, position)
    {
      assert k < 3;
    }
  }

  /** The line tree is a rebuilt vector: what UpdateKDtree leaves for the
      shapes 0, 1, 2 on a freshly built tree of depth 2 split to depth 2. */
  lemma LineTreeRebuilt(position: nat -> Position)
    requires OnLine(position)
    ensures Rebuilt(LineTree(), Deactivated(Plan(2)), [0, 1, 2], 2, position)
  {
    LineTreeShape();
    LineLinks();
    LineAllPlaced(position);
    var T, D := LineTree(), Deactivated(Plan(2));
    assert forall k :: 0 <= k < |T| && !T[k].active ==> T[k] == D[k] by {
      forall k | 0 <= k < |T| && !T[k].active
        ensures T[k] == D[k]
      {
        assert 3 <= k;
      }
    }
  }

  /** The query as written, asked at (2, 5) on the line tree, passes the root
      on the right of its split x = 1, moves on from its right child into the
      deactivated slot 6, whose range 0 .. 0 holds shape 0 at x = 0: left of
      the split. The corrected query stops at the right child and answers
      shape 2. */
  lemma StaleSlotQuery(position: nat -> Position)
    requires OnLine(position)
    ensures Layout(LineTree()) == Plan(2) && ChildLinks(LineTree(), 2)
    ensures Rebuilt(LineTree(), Deactivated(Plan(2)), [0, 1, 2], 2, position)
    ensures Descent(LineTree(), 2, Position(2.0, 5.0), 0) == [0, 2, 6]
    ensures Nearby(LineTree(), [0, 1, 2], 2, Position(2.0, 5.0)) == Some([0])
    ensures position(0).x < LineTree()[0].axisValue < 2.0
    ensures ActiveNearby(LineTree(), [0, 1, 2], 2, Position(2.0, 5.0)) == Some([2])
  {
    LineTreeRebuilt(position);
    LineTreeShape();
    LineDescents();
    LineGathers();
    var p := Position(2.0, 5.0);
    assert Descent(LineTree(), 2, p, 0)[2] == 6;
    assert ActiveDescent(LineTree(), 2, p, 0)[1] == 2;
  }

  /** The ranges of slots 6 and 2 of the line tree: shape 0 and shape 2. */
  lemma LineGathers()
    ensures Gather([0, 1, 2], LineTree()[6].start, LineTree()[6].end) == Some([0])
    ensures Gather([0, 1, 2], LineTree()[2].start, LineTree()[2].end) == Some([2])
  {
    var S: seq<nat> := [0, 1, 2];
    var a, b := LineTree()[6], LineTree()[2];
    assert a.start == 0 && a.end == 0 && b.start == 2 && b.end == 2;
    assert S[0..1] == [0] && S[2..3] == [2];
  }

  /** The two descents at (2, 5) on the line tree. */
  lemma LineDescents()
    ensures ChildLinks(LineTree(), 2)
    ensures Descent(LineTree(), 2, Position(2.0, 5.0), 0) == [0, 2, 6]
    ensures ActiveDescent(LineTree(), 2, Position(2.0, 5.0), 0) == [0, 2]
  {
    LineTreeShape();
    var T := LineTree();
    var p := Position(2.0, 5.0);
    var r, c, l := T[0], T[2], T[6];
    assert r.axis == XAxis && r.axisValue == 1.0 && r.depth == 0 && r.right == 2;
    assert c.axis == YAxis && c.axisValue == 0.0 && c.depth == 1 && c.right == 6;
    assert l.depth == 2 && !l.active && T[2].active;
    assert Descends(r, 2, p) && Next(r, p) == 2 && Descends(c, 2, p) && Next(c, p) == 6 && !Descends(l, 2, p);
    assert Descent(T, 2, p, 6) == [6];
    assert Descent(T, 2, p, 2) == [2, 6];
    assert ActiveDescent(T, 2, p, 2) == [2];
  }
}
