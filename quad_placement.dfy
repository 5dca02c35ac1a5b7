/** Where the rebuild of the quad tree puts a shape, and that the query finds
    it there: for a collider with positive extents strictly inside the root,
    the shape ends up in the list of the deepest active node whose quadrant
    strictly contains it, and the walk of GetNearbyShapes names that node. */
module QuadPlacement {
  import opened Geometry
  import opened Wrappers
  import opened QuadTree

  // ---------------------------------------------------------------------------
  // Geometry of one children block

  predicate Positive(c: Collider)
  {
    c.width > 0.0 && c.height > 0.0
  }

  /** The collider lies strictly inside the bounds on both axes. */
  predicate InsideB(c: Collider, b: Bounds)
  {
    b.left < LowX(c) && HighX(c) < b.right && b.bottom < LowY(c) && HighY(c) < b.top
  }

  predicate Inside(c: Collider, n: QuadTreeNode)
  {
    InsideB(c, BoundsOf(n))
  }

  /** The classification of c against child j of slot p. */
  function Reading(T: seq<QuadTreeNode>, c: Collider, p: nat, j: nat): int
    requires j < 4 && 4 * p + 4 < |T|
  {
    CheckShapeNodeCollide(c, T[4 * p + 1 + j])
  }

  /** The first child of slot p that strictly contains c, or 4 if none does.
      It reads only the layout, so the lists and flags do not matter. */
  function FullChild(L: seq<QuadTreeNode>, c: Collider, p: nat): (j: nat)
    requires 4 * p + 4 < |L|
    ensures j <= 4 && (j < 4 ==> Inside(c, L[4 * p + 1 + j]))
  {
    if Inside(c, L[4 * p + 1]) then 0
    else if Inside(c, L[4 * p + 2]) then 1
    else if Inside(c, L[4 * p + 3]) then 2
    else if Inside(c, L[4 * p + 4]) then 3
    else 4
  }

  /** The first child of slot p that c is not missed by, or 4 if it misses all. */
  function FirstHit(T: seq<QuadTreeNode>, c: Collider, p: nat): (h: nat)
    requires 4 * p + 4 < |T|
    ensures h <= 4 && (h < 4 ==> Reading(T, c, p, h) != 0)
    ensures forall i :: 0 <= i < h ==> Reading(T, c, p, i) == 0
  {
    if Reading(T, c, p, 0) != 0 then 0
    else if Reading(T, c, p, 1) != 0 then 1
    else if Reading(T, c, p, 2) != 0 then 2
    else if Reading(T, c, p, 3) != 0 then 3
    else 4
  }

  /** The classification against a quadrant of bounds that strictly contain a
      collider of positive extents: one point for being within a span of the
      quadrant's faces, which on each axis comes down to reaching across the
      midline towards the quadrant, and one for strict containment. */
  lemma ChildReading(c: Collider, b: Bounds, j: nat, n: QuadTreeNode)
    requires j < 4 && BoundsOf(n) == Quadrant(b, j)
    requires Positive(c) && InsideB(c, b)
    ensures var midX := b.left + ((b.right - b.left) / 2.0);
            var midY := b.bottom + ((b.top - b.bottom) / 2.0);
            var nearX := if j % 2 == 0 then LowX(c) < midX else midX < HighX(c);
            var nearY := if j < 2 then midY < HighY(c) else LowY(c) < midY;
            CheckShapeNodeCollide(c, n)
            == (if nearX && nearY then 1 else 0) + (if InsideB(c, BoundsOf(n)) then 1 else 0)
  {
  }

  /** The four readings of the children of a node that strictly contains c,
      by ChildReading. */
  lemma BlockFacts(T: seq<QuadTreeNode>, c: Collider, p: nat)
    requires Tiled(T) && 4 * p + 4 < |T| && Positive(c) && Inside(c, T[p])
    ensures var b := BoundsOf(T[p]);
            var midX := b.left + ((b.right - b.left) / 2.0);
            var midY := b.bottom + ((b.top - b.bottom) / 2.0);
            && b.left < LowX(c) < HighX(c) < b.right && b.bottom < LowY(c) < HighY(c) < b.top
            && Reading(T, c, p, 0) == (if LowX(c) < midX && midY < HighY(c) then 1 else 0)
                                      + (if HighX(c) < midX && midY < LowY(c) then 1 else 0)
            && Reading(T, c, p, 1) == (if midX < HighX(c) && midY < HighY(c) then 1 else 0)
                                      + (if midX < LowX(c) && midY < LowY(c) then 1 else 0)
            && Reading(T, c, p, 2) == (if LowX(c) < midX && LowY(c) < midY then 1 else 0)
                                      + (if HighX(c) < midX && HighY(c) < midY then 1 else 0)
            && Reading(T, c, p, 3) == (if midX < HighX(c) && LowY(c) < midY then 1 else 0)
                                      + (if midX < LowX(c) && HighY(c) < midY then 1 else 0)
            && (Inside(c, Layout(T)[4 * p + 1]) <==> HighX(c) < midX && midY < LowY(c))
            && (Inside(c, Layout(T)[4 * p + 2]) <==> midX < LowX(c) && midY < LowY(c))
            && (Inside(c, Layout(T)[4 * p + 3]) <==> HighX(c) < midX && HighY(c) < midY)
            && (Inside(c, Layout(T)[4 * p + 4]) <==> midX < LowX(c) && HighY(c) < midY)
  {
    var b := BoundsOf(T[p]);
    forall j | 0 <= j < 4
      ensures Layout(T)[4 * p + 1 + j] == Static(T[4 * p + 1 + j])
      ensures BoundsOf(T[4 * p + 1 + j]) == Quadrant(b, j)
    {
      TiledAt(T, p, j);
    }
    ChildReading(c, b, 0, T[4 * p + 1]);
    ChildReading(c, b, 1, T[4 * p + 2]);
    ChildReading(c, b, 2, T[4 * p + 3]);
    ChildReading(c, b, 3, T[4 * p + 4]);
  }

  /** If a child of a node that strictly contains c strictly contains c, it
      reads 2 (full) and the other three read 0 (miss). */
  lemma BlockFull(T: seq<QuadTreeNode>, c: Collider, p: nat)
    requires Tiled(T) && 4 * p + 4 < |T| && Positive(c) && Inside(c, T[p])
    requires FullChild(Layout(T), c, p) < 4
    ensures var j := FullChild(Layout(T), c, p);
            && Reading(T, c, p, j) == 2 && FirstHit(T, c, p) == j
            && forall i :: 0 <= i < 4 && i != j ==> Reading(T, c, p, i) == 0
  {
    BlockFacts(T, c, p);
  }

  /** If no child of a node that strictly contains c strictly contains c, the
      first child c is not missed by reads 1 (partial), and there is one. */
  lemma BlockStraddle(T: seq<QuadTreeNode>, c: Collider, p: nat)
    requires Tiled(T) && 4 * p + 4 < |T| && Positive(c) && Inside(c, T[p])
    requires FullChild(Layout(T), c, p) == 4
    ensures FirstHit(T, c, p) < 4 && Reading(T, c, p, FirstHit(T, c, p)) == 1
  {
    BlockFacts(T, c, p);
  }

  // ---------------------------------------------------------------------------
  // The node a collider belongs to

  /** A collider the trees can place: positive extents, strictly inside the root. */
  ghost predicate Good(T: seq<QuadTreeNode>, c: Collider)
  {
    |T| > 0 && Positive(c) && Inside(c, T[0])
  }

  /** The hasChildren flags of a node vector. */
  ghost function Flags(T: seq<QuadTreeNode>): (F: seq<bool>)
    ensures |F| == |T| && forall k :: 0 <= k < |T| ==> F[k] == T[k].hasChildren
  {
    seq(|T|, k requires 0 <= k < |T| => T[k].hasChildren)
  }

  /** The reference placement on a layout L and flags F, independent of the
      index walk: from slot p, descend into the child that strictly contains
      c as long as the node has children; stop at a childless node or at one
      none of whose children contains c. */
  ghost function HomeIn(L: seq<QuadTreeNode>, F: seq<bool>, c: Collider, p: nat): (k: nat)
    requires p < |L| == |F|
    ensures p <= k < |L|
    decreases |L| - p
  {
    if !F[p] || 4 * p + 4 >= |L| then p
    else
      var j := FullChild(L, c, p);
      if j == 4 then p else HomeIn(L, F, c, 4 * p + 1 + j)
  }

  /** The slot of the node vector T that c belongs to, from slot p down. */
  ghost function Home(T: seq<QuadTreeNode>, c: Collider, p: nat): (k: nat)
    requires p < |T|
    ensures p <= k < |T|
  {
    HomeIn(Layout(T), Flags(T), c, p)
  }

  /** One step of Home. */
  lemma HomeStep(T: seq<QuadTreeNode>, c: Collider, p: nat)
    requires p < |T|
    ensures !T[p].hasChildren || 4 * p + 4 >= |T| ==> Home(T, c, p) == p
    ensures T[p].hasChildren && 4 * p + 4 < |T| ==>
              var j := FullChild(Layout(T), c, p);
              Home(T, c, p) == if j == 4 then p else Home(T, c, 4 * p + 1 + j)
  {
  }

  /** Slot q lies on the way down to c's node: it is active, and each of its
      ancestors has children, of which the one on the way strictly contains c. */
  ghost predicate OnPath(T: seq<QuadTreeNode>, c: Collider, q: nat)
    decreases q
  {
    && q < |T| && T[q].active
    && (q == 0 ||
        var p := Parent(q);
        && T[p].hasChildren && 4 * p + 4 < |T|
        && FullChild(Layout(T), c, p) == ChildSlot(q)
        && OnPath(T, c, p))
  }

  /** Child j of slot p has p as parent and j as its place in the block. */
  lemma ChildOf(p: nat, j: nat)
    requires j < 4
    ensures Parent(4 * p + 1 + j) == p && ChildSlot(4 * p + 1 + j) == j
  {
  }

  /** The slot after a children block's first slot and ChildSlot. */
  lemma ChildIndex(q: nat)
    requires q > 0
    ensures 4 * Parent(q) + 1 + ChildSlot(q) == q
  {
  }

  /** The flags the tree keeps: the root is active; an active node below the
      root hangs from an active parent that has children; an active node with
      children is above the depth limit and its four children are active. */
  ghost predicate ActiveTree(T: seq<QuadTreeNode>, maxDepth: nat)
  {
    && |T| > 0 && T[0].active
    && (forall k {:trigger Parent(k)} :: 0 < k < |T| && T[k].active ==>
          T[Parent(k)].active && T[Parent(k)].hasChildren)
    && (forall k {:trigger T[k].hasChildren} :: 0 <= k < |T| && T[k].active && T[k].hasChildren ==>
          T[k].depth < maxDepth && 4 * k + 4 < |T| && BlockActive(T, k))
  }

  /** The four children of slot k are active. */
  ghost predicate BlockActive(T: seq<QuadTreeNode>, k: nat)
    requires 4 * k + 4 < |T|
  {
    forall x :: 4 * k + 1 <= x <= 4 * k + 4 ==> T[x].active
  }

  /** The children of an active node that has children are active. */
  lemma ChildActive(T: seq<QuadTreeNode>, maxDepth: nat, p: nat, j: nat)
    requires ActiveTree(T, maxDepth) && p < |T| && T[p].active && T[p].hasChildren && j < 4
    ensures 4 * p + 4 < |T| && T[4 * p + 1 + j].active
  {
    assert BlockActive(T, p);
  }

  /** Only active nodes hold shapes. */
  ghost predicate InactiveEmpty(T: seq<QuadTreeNode>)
  {
    forall k :: 0 <= k < |T| && !T[k].active ==> T[k].shapes == []
  }

  /** A childless node above the depth limit holds at most maxPerNode shapes. */
  ghost predicate Capacity(T: seq<QuadTreeNode>, cfg: Config)
  {
    forall k :: 0 <= k < |T| && !T[k].hasChildren && T[k].depth < cfg.maxDepth ==>
      |T[k].shapes| <= cfg.maxPerNode
  }

  /** Every stored shape has a placeable collider and sits in its Home. */
  ghost predicate Placement(T: seq<QuadTreeNode>, collider: nat -> Collider)
  {
    forall k, t :: 0 <= k < |T| && t in T[k].shapes ==>
      Good(T, collider(t)) && Home(T, collider(t), 0) == k
  }

  ghost predicate Inv(T: seq<QuadTreeNode>, cfg: Config, collider: nat -> Collider)
  {
    && Indexed(T, cfg.maxDepth) && Tiled(T)
    && ActiveTree(T, cfg.maxDepth) && InactiveEmpty(T)
    && Capacity(T, cfg) && Placement(T, collider)
  }

  /** The way down from the root passes through q, so it ends where the way
      down from q ends. */
  lemma {:induction false} PathHome(T: seq<QuadTreeNode>, c: Collider, q: nat)
    requires OnPath(T, c, q)
    ensures Home(T, c, 0) == Home(T, c, q)
    decreases q
  {
    if q > 0 {
      var p := Parent(q);
      PathHome(T, c, p);
      ChildIndex(q);
      HomeStep(T, c, p);
    }
  }

  /** The way down from a node on the path stays on the path. */
  lemma {:induction false} HomeOnPath(T: seq<QuadTreeNode>, maxDepth: nat, c: Collider, p: nat)
    requires ActiveTree(T, maxDepth) && OnPath(T, c, p)
    ensures OnPath(T, c, Home(T, c, p))
    decreases |T| - p
  {
    HomeStep(T, c, p);
    if T[p].hasChildren && 4 * p + 4 < |T| {
      var j := FullChild(Layout(T), c, p);
      if j < 4 {
        var k := 4 * p + 1 + j;
        ChildOf(p, j);
        ChildActive(T, maxDepth, p, j);
        assert OnPath(T, c, k);
        HomeOnPath(T, maxDepth, c, k);
        assert Home(T, c, p) == Home(T, c, k);
      } else {
        assert Home(T, c, p) == p;
      }
    } else {
      assert Home(T, c, p) == p;
    }
  }

  /** A collider strictly inside slot p is strictly inside its Home. */
  lemma {:induction false} HomeInside(T: seq<QuadTreeNode>, c: Collider, p: nat)
    requires p < |T| && Inside(c, T[p])
    ensures Inside(c, T[Home(T, c, p)])
    decreases |T| - p
  {
    if T[p].hasChildren && 4 * p + 4 < |T| {
      var j := FullChild(Layout(T), c, p);
      if j < 4 {
        var k := 4 * p + 1 + j;
        assert Layout(T)[k] == Static(T[k]);
        HomeInside(T, c, k);
      }
    }
  }

  /** Home reads only the layout and the hasChildren flags. */
  lemma HomeSame(T: seq<QuadTreeNode>, R: seq<QuadTreeNode>, c: Collider, p: nat)
    requires p < |T| && Layout(R) == Layout(T)
    requires forall k :: 0 <= k < |T| ==> R[k].hasChildren == T[k].hasChildren
    ensures Home(R, c, p) == Home(T, c, p)
  {
    assert |R| == |Layout(R)| == |T|;
    assert Flags(R) == Flags(T);
  }

  /** HomeIn is unchanged when only a childless node q and its children change
      their flags, for a collider whose way down does not end at q. */
  lemma {:induction false} HomeInFrame(L: seq<QuadTreeNode>, F: seq<bool>, G: seq<bool>, c: Collider, q: nat, p: nat)
    requires p < |L| == |F| == |G| && q < |L| && !F[q]
    requires forall k :: 0 <= k < |L| && k != q && (k == 0 || Parent(k) != q) ==> G[k] == F[k]
    requires p == 0 || F[Parent(p)]
    requires HomeIn(L, F, c, p) != q
    ensures HomeIn(L, G, c, p) == HomeIn(L, F, c, p)
    decreases |L| - p
  {
    assert p != q;
    assert p == 0 || Parent(p) != q;
    assert G[p] == F[p];
    if F[p] && 4 * p + 4 < |L| {
      var j := FullChild(L, c, p);
      if j < 4 {
        var k := 4 * p + 1 + j;
        assert Parent(k) == p;
        HomeInFrame(L, F, G, c, q, k);
      }
    }
  }

  /** Home is unchanged when only a childless node q and its children change
      their flags, for a collider whose Home is not q. */
  lemma HomeFrame(T: seq<QuadTreeNode>, R: seq<QuadTreeNode>, c: Collider, q: nat)
    requires q < |T| && Layout(R) == Layout(T) && !T[q].hasChildren
    requires forall k :: 0 <= k < |T| && k != q && (k == 0 || Parent(k) != q) ==>
               R[k].hasChildren == T[k].hasChildren
    requires Home(T, c, 0) != q
    ensures Home(R, c, 0) == Home(T, c, 0)
  {
    assert |R| == |Layout(R)| == |T|;
    HomeInFrame(Layout(T), Flags(T), Flags(R), c, q, 0);
  }

  /** The path survives the node vector growing: active nodes stay active and
      keep their children, and the layout is unchanged. */
  ghost predicate Grows(T: seq<QuadTreeNode>, R: seq<QuadTreeNode>)
  {
    && |R| == |T|
    && forall k :: 0 <= k < |T| && T[k].active ==> R[k].active && (T[k].hasChildren ==> R[k].hasChildren)
  }

  lemma GrowsTrans(T: seq<QuadTreeNode>, S: seq<QuadTreeNode>, R: seq<QuadTreeNode>)
    requires Grows(T, S) && Grows(S, R)
    ensures Grows(T, R)
  {
  }

  lemma {:induction false} PathKept(T: seq<QuadTreeNode>, R: seq<QuadTreeNode>, c: Collider, q: nat)
    requires OnPath(T, c, q) && Grows(T, R) && Layout(R) == Layout(T)
    ensures OnPath(R, c, q)
    decreases q
  {
    if q > 0 {
      PathKept(T, R, c, Parent(q));
    }
  }

  // ---------------------------------------------------------------------------
  // The query

  /** A miss moves the query to the next slot: after misses on the children
      of p before child j, the query from the first child is the query from
      child j. */
  lemma {:induction false} ScanQuery(T: seq<QuadTreeNode>, maxDepth: nat, c: Collider, p: nat, j: nat)
    requires Indexed(T, maxDepth) && 4 * p + 4 < |T| && j < 4
    requires forall i :: 0 <= i < j ==> Reading(T, c, p, i) == 0
    ensures QueryFrom(T, maxDepth, c, 4 * p + 1) == QueryFrom(T, maxDepth, c, 4 * p + 1 + j)
    decreases j
  {
    if j > 0 {
      ScanQuery(T, maxDepth, c, p, j - 1);
      var i := 4 * p + j;
      assert CheckShapeNodeCollide(c, T[i]) == Reading(T, c, p, j - 1) == 0;
      assert QueryFrom(T, maxDepth, c, i) == QueryFrom(T, maxDepth, c, i + 1);
    }
  }

  /** One step of the query at slot i: a full hit on a childless node names
      it, a full hit on a node with children moves to its first child, and a
      partial hit below the root names the parent. */
  lemma QueryStep(T: seq<QuadTreeNode>, maxDepth: nat, c: Collider, i: nat)
    requires Indexed(T, maxDepth) && i < |T|
    ensures var r := CheckShapeNodeCollide(c, T[i]);
            && (r == 2 && !T[i].hasChildren ==> QueryFrom(T, maxDepth, c, i) == Some(i))
            && (r == 2 && T[i].hasChildren ==> QueryFrom(T, maxDepth, c, i) == QueryFrom(T, maxDepth, c, 4 * i + 1))
            && (r == 1 && i > 0 ==> QueryFrom(T, maxDepth, c, i) == Some(Parent(i)))
  {
    IndexedAt(T, maxDepth, i);
  }

  /** From the first child of a node with children that strictly contains c
      but none of whose children does, the query names the node. */
  lemma QueryStraddle(T: seq<QuadTreeNode>, maxDepth: nat, c: Collider, p: nat)
    requires Indexed(T, maxDepth) && Tiled(T) && 4 * p + 4 < |T|
    requires Positive(c) && Inside(c, T[p]) && FullChild(Layout(T), c, p) == 4
    ensures QueryFrom(T, maxDepth, c, 4 * p + 1) == Some(p)
  {
    BlockStraddle(T, c, p);
    var h := FirstHit(T, c, p);
    ScanQuery(T, maxDepth, c, p, h);
    QueryStep(T, maxDepth, c, 4 * p + 1 + h);
    assert Parent(4 * p + 1 + h) == p;
  }

  /** From the first child of a node whose child j strictly contains c, the
      query continues at child j. */
  lemma QueryEnter(T: seq<QuadTreeNode>, maxDepth: nat, c: Collider, p: nat, j: nat)
    requires Indexed(T, maxDepth) && Tiled(T) && 4 * p + 4 < |T|
    requires Positive(c) && Inside(c, T[p]) && j < 4 && FullChild(Layout(T), c, p) == j
    ensures QueryFrom(T, maxDepth, c, 4 * p + 1) == QueryFrom(T, maxDepth, c, 4 * p + 1 + j)
  {
    BlockFull(T, c, p);
    ScanQuery(T, maxDepth, c, p, j);
  }

  /** A collider of positive extents strictly inside a node reads 2 (full). */
  lemma InsideReadsFull(c: Collider, n: QuadTreeNode)
    requires Positive(c) && Inside(c, n)
    ensures CheckShapeNodeCollide(c, n) == 2
  {
    ClassificationMeaning(c, n);
  }

  /** The walk of GetNearbyShapes from an active node that strictly contains
      c ends at c's Home. */
  lemma {:induction false} QueryHome(T: seq<QuadTreeNode>, maxDepth: nat, c: Collider, p: nat)
    requires Indexed(T, maxDepth) && Tiled(T) && ActiveTree(T, maxDepth)
    requires p < |T| && T[p].active && Positive(c) && Inside(c, T[p])
    ensures QueryFrom(T, maxDepth, c, p) == Some(Home(T, c, p))
    decreases |T| - p
  {
    if !T[p].hasChildren {
      QueryLeaf(T, maxDepth, c, p);
    } else {
      var j := FullChild(Layout(T), c, p);
      if j < 4 {
        QueryDown(T, maxDepth, c, p, j);
        QueryHome(T, maxDepth, c, 4 * p + 1 + j);
      } else {
        QueryAcross(T, maxDepth, c, p);
      }
    }
  }

  /** The query at a childless node that strictly contains c names it. */
  lemma QueryLeaf(T: seq<QuadTreeNode>, maxDepth: nat, c: Collider, p: nat)
    requires Indexed(T, maxDepth) && p < |T| && !T[p].hasChildren && Positive(c) && Inside(c, T[p])
    ensures QueryFrom(T, maxDepth, c, p) == Some(p) && Home(T, c, p) == p
  {
    InsideReadsFull(c, T[p]);
    QueryStep(T, maxDepth, c, p);
    HomeStep(T, c, p);
  }

  /** The query and Home both move from a node to its child j when that
      child strictly contains c. */
  lemma QueryDown(T: seq<QuadTreeNode>, maxDepth: nat, c: Collider, p: nat, j: nat)
    requires Indexed(T, maxDepth) && Tiled(T) && ActiveTree(T, maxDepth)
    requires p < |T| && T[p].active && T[p].hasChildren && Positive(c) && Inside(c, T[p])
    requires j < 4 && FullChild(Layout(T), c, p) == j
    ensures 4 * p + 4 < |T| && T[4 * p + 1 + j].active && Inside(c, T[4 * p + 1 + j])
    ensures QueryFrom(T, maxDepth, c, p) == QueryFrom(T, maxDepth, c, 4 * p + 1 + j)
    ensures Home(T, c, p) == Home(T, c, 4 * p + 1 + j)
  {
    ChildActive(T, maxDepth, p, j);
    FullChildInside(Layout(T), c, p, j);
    StaticAt(T, 4 * p + 1 + j);
    QueryChild(T, maxDepth, c, p, j);
    HomeChild(T, c, p, j);
  }

  lemma QueryChild(T: seq<QuadTreeNode>, maxDepth: nat, c: Collider, p: nat, j: nat)
    requires Indexed(T, maxDepth) && Tiled(T) && 4 * p + 4 < |T| && T[p].hasChildren
    requires Positive(c) && Inside(c, T[p]) && j < 4 && FullChild(Layout(T), c, p) == j
    ensures QueryFrom(T, maxDepth, c, p) == QueryFrom(T, maxDepth, c, 4 * p + 1 + j)
  {
    InsideReadsFull(c, T[p]);
    QueryStep(T, maxDepth, c, p);
    QueryEnter(T, maxDepth, c, p, j);
  }

  lemma HomeChild(T: seq<QuadTreeNode>, c: Collider, p: nat, j: nat)
    requires 4 * p + 4 < |T| && T[p].hasChildren && j < 4 && FullChild(Layout(T), c, p) == j
    ensures Home(T, c, p) == Home(T, c, 4 * p + 1 + j)
  {
    HomeStep(T, c, p);
  }

  /** The query at a node with children none of which strictly contains c
      names the node, which is c's Home. */
  lemma QueryAcross(T: seq<QuadTreeNode>, maxDepth: nat, c: Collider, p: nat)
    requires Indexed(T, maxDepth) && Tiled(T) && ActiveTree(T, maxDepth)
    requires p < |T| && T[p].active && T[p].hasChildren && Positive(c) && Inside(c, T[p])
    requires FullChild(Layout(T), c, p) == 4
    ensures QueryFrom(T, maxDepth, c, p) == Some(p) && Home(T, c, p) == p
  {
    InsideReadsFull(c, T[p]);
    QueryStep(T, maxDepth, c, p);
    ChildActive(T, maxDepth, p, 0);
    QueryStraddle(T, maxDepth, c, p);
    HomeStep(T, c, p);
  }

  /** The walk of GetNearbyShapes from the root ends at the Home of a
      placeable collider. */
  lemma QueryFindsHome(T: seq<QuadTreeNode>, maxDepth: nat, c: Collider)
    requires Indexed(T, maxDepth) && Tiled(T)
    ensures Good(T, c) && ActiveTree(T, maxDepth) ==> QueryFrom(T, maxDepth, c, 0) == Some(Home(T, c, 0))
  {
    if Good(T, c) && ActiveTree(T, maxDepth) {
      QueryHome(T, maxDepth, c, 0);
    }
  }

  // ---------------------------------------------------------------------------
  // The shapes held by the tree

  /** All lists of the node vector together. */
  ghost function Bag(T: seq<QuadTreeNode>): multiset<nat>
    decreases |T|
  {
    if T == [] then multiset{} else Bag(T[..|T| - 1]) + multiset(T[|T| - 1].shapes)
  }

  /** Replacing the node in slot k replaces its list in the bag. */
  lemma {:induction false} BagUpdate(T: seq<QuadTreeNode>, k: nat, n: QuadTreeNode)
    requires k < |T|
    ensures Bag(T[k := n]) + multiset(T[k].shapes) == Bag(T) + multiset(n.shapes)
    decreases |T|
  {
    var U := T[k := n];
    var m := |T| - 1;
    if k == m {
      assert U[..m] == T[..m];
    } else {
      assert U[..m] == T[..m][k := n];
      assert T[..m][k] == T[k] && U[m] == T[m];
      BagUpdate(T[..m], k, n);
      calc {
        Bag(U) + multiset(T[k].shapes);
        Bag(T[..m][k := n]) + multiset(T[m].shapes) + multiset(T[k].shapes);
        Bag(T[..m]) + multiset(n.shapes) + multiset(T[m].shapes);
        Bag(T) + multiset(n.shapes);
      }
    }
  }

  lemma Cancel(X: multiset<nat>, Y: multiset<nat>, A: multiset<nat>)
    requires X + A == Y + A
    ensures X == Y
  {
    forall x
      ensures X[x] == Y[x]
    {
      assert (X + A)[x] == (Y + A)[x];
    }
  }

  /** Adding s to the list of slot k adds s to the bag. */
  lemma BagPush(T: seq<QuadTreeNode>, k: nat, s: nat)
    requires k < |T|
    ensures Bag(T[k := T[k].(shapes := T[k].shapes + [s])]) == Bag(T) + multiset{s}
  {
    var n := T[k].(shapes := T[k].shapes + [s]);
    var A := multiset(T[k].shapes);
    BagUpdate(T, k, n);
    assert multiset(n.shapes) == A + multiset{s};
    assert Bag(T) + multiset(n.shapes) == (Bag(T) + multiset{s}) + A;
    Cancel(Bag(T[k := n]), Bag(T) + multiset{s}, A);
  }

  /** Emptying the list of slot k takes its shapes out of the bag. */
  lemma BagClear(T: seq<QuadTreeNode>, k: nat)
    requires k < |T|
    ensures Bag(T[k := T[k].(shapes := [])]) + multiset(T[k].shapes) == Bag(T)
  {
    var n := T[k].(shapes := []);
    BagUpdate(T, k, n);
    assert multiset(n.shapes) == multiset{};
    assert Bag(T) + multiset{} == Bag(T);
  }

  /** Vectors with the same lists have the same bag. */
  lemma {:induction false} BagLists(T: seq<QuadTreeNode>, R: seq<QuadTreeNode>)
    requires |R| == |T| && forall k :: 0 <= k < |T| ==> R[k].shapes == T[k].shapes
    ensures Bag(R) == Bag(T)
    decreases |T|
  {
    if T != [] {
      BagLists(T[..|T| - 1], R[..|R| - 1]);
    }
  }

  /** A shape in the bag is in the list of some slot. */
  lemma {:induction false} BagMember(T: seq<QuadTreeNode>, t: nat)
    requires t in Bag(T)
    ensures exists k :: 0 <= k < |T| && t in T[k].shapes
    decreases |T|
  {
    var m := |T| - 1;
    if t !in multiset(T[m].shapes) {
      BagMember(T[..m], t);
      var k :| 0 <= k < m && t in T[..m][k].shapes;
      assert T[..m][k] == T[k];
    }
  }

  /** A vector of empty lists has the empty bag. */
  lemma {:induction false} BagEmpty(T: seq<QuadTreeNode>)
    requires forall k :: 0 <= k < |T| ==> T[k].shapes == []
    ensures Bag(T) == multiset{}
    decreases |T|
  {
    if T != [] {
      BagEmpty(T[..|T| - 1]);
    }
  }

  // ---------------------------------------------------------------------------
  // One push and one split keep the invariant

  /** Two vectors of the same layout agree on everything but lists and flags. */
  lemma LayoutAt(T: seq<QuadTreeNode>, R: seq<QuadTreeNode>, k: nat)
    requires Layout(R) == Layout(T) && k < |T|
    ensures |R| == |T| && Static(R[k]) == Static(T[k])
    ensures BoundsOf(R[k]) == BoundsOf(T[k]) && R[k].depth == T[k].depth
  {
    assert |R| == |Layout(R)|;
    assert Layout(R)[k] == Static(R[k]) && Layout(T)[k] == Static(T[k]);
  }

  /** For a vector of the same layout and flags, a stored shape that was
      placed is still placed. */
  lemma PlacedKept(T: seq<QuadTreeNode>, R: seq<QuadTreeNode>, c: Collider, k: nat)
    requires Layout(R) == Layout(T) && |T| > 0
    requires forall i :: 0 <= i < |T| ==> R[i].hasChildren == T[i].hasChildren
    requires Good(T, c) && Home(T, c, 0) == k
    ensures Good(R, c) && Home(R, c, 0) == k
  {
    LayoutAt(T, R, 0);
    HomeSame(T, R, c, 0);
  }

  /** A node replaced by one that differs from it only in its list keeps the
      layout and the trees' flags. */
  lemma ListOnly(T: seq<QuadTreeNode>, maxDepth: nat, q: nat, n: QuadTreeNode)
    requires Indexed(T, maxDepth) && Tiled(T) && ActiveTree(T, maxDepth) && q < |T|
    requires n == T[q].(shapes := n.shapes)
    ensures Indexed(T[q := n], maxDepth) && Tiled(T[q := n])
    ensures ActiveTree(T[q := n], maxDepth) && Grows(T, T[q := n])
  {
    LayoutUpdate(T, q, n);
  }

  /** The push of shape s onto the list of an active node q that is not a
      full childless node above the depth limit keeps the bounds on lists. */
  lemma PushCapacity(T: seq<QuadTreeNode>, cfg: Config, q: nat, s: nat)
    requires InactiveEmpty(T) && Capacity(T, cfg) && q < |T| && T[q].active
    requires T[q].hasChildren || T[q].depth >= cfg.maxDepth || |T[q].shapes| < cfg.maxPerNode
    ensures var R := T[q := T[q].(shapes := T[q].shapes + [s])];
            InactiveEmpty(R) && Capacity(R, cfg)
  {
  }

  /** After the push of a shape onto the list of its Home, every stored
      shape is still placed. */
  lemma PushPlaced(T: seq<QuadTreeNode>, collider: nat -> Collider, q: nat, s: nat)
    requires Placement(T, collider) && q < |T|
    requires Good(T, collider(s)) && Home(T, collider(s), 0) == q
    ensures Placement(PushShape(T, q, s), collider)
  {
    var R := PushShape(T, q, s);
    forall k, t | 0 <= k < |R| && t in R[k].shapes
      ensures Good(R, collider(t)) && Home(R, collider(t), 0) == k
    {
      if k == q && t == s {
        PlacedKept(T, R, collider(t), k);
      } else {
        assert t in T[k].shapes;
        PlacedKept(T, R, collider(t), k);
      }
    }
  }

  /** The push of a shape onto the list of its Home keeps the invariant; the
      node is not a childless one below the depth limit that is full. */
  lemma PushKeeps(T: seq<QuadTreeNode>, cfg: Config, collider: nat -> Collider, q: nat, s: nat)
    requires Inv(T, cfg, collider) && q < |T| && T[q].active
    requires Good(T, collider(s)) && Home(T, collider(s), 0) == q
    requires T[q].hasChildren || T[q].depth >= cfg.maxDepth || |T[q].shapes| < cfg.maxPerNode
    ensures var R := PushShape(T, q, s);
            Inv(R, cfg, collider) && Grows(T, R) && Bag(R) == Bag(T) + multiset{s}
  {
    var R := PushShape(T, q, s);
    var n := T[q].(shapes := T[q].shapes + [s]);
    assert R == T[q := n];
    BagPush(T, q, s);
    ListOnly(T, cfg.maxDepth, q, n);
    PushCapacity(T, cfg, q, s);
    PushPlaced(T, collider, q, s);
  }

  /** S is T after the split of slot q, slot by slot: q gets children and an
      empty list, its four children are activated, nothing else changes. */
  ghost predicate SplitOf(T: seq<QuadTreeNode>, S: seq<QuadTreeNode>, q: nat)
  {
    && |S| == |T| && 4 * q + 4 < |T|
    && forall k :: 0 <= k < |T| ==>
         S[k] == if k == q then T[q].(hasChildren := true, shapes := [])
                 else if k > 0 && Parent(k) == q then ActivateNode(T[k])
                 else T[k]
  }

  lemma SplitAt(T: seq<QuadTreeNode>, q: nat)
    requires 4 * q + 4 < |T|
    ensures SplitOf(T, Split(T, q), q)
  {
    var S := Split(T, q);
    forall k | 0 <= k < |T|
      ensures S[k] == if k == q then T[q].(hasChildren := true, shapes := [])
                      else if k > 0 && Parent(k) == q then ActivateNode(T[k])
                      else T[k]
    {
      assert (k > 0 && Parent(k) == q) <==> 4 * q + 1 <= k <= 4 * q + 4;
    }
  }

  /** The children of an active childless node are inactive. */
  lemma ChildrenInactive(T: seq<QuadTreeNode>, maxDepth: nat, q: nat, k: nat)
    requires ActiveTree(T, maxDepth) && q < |T| && !T[q].hasChildren
    requires 0 < k < |T| && Parent(k) == q
    ensures !T[k].active
  {
  }

  /** After the split of an active childless node, an active node below the
      root still hangs from an active parent that has children. */
  lemma SplitParents(T: seq<QuadTreeNode>, S: seq<QuadTreeNode>, maxDepth: nat, q: nat)
    requires ActiveTree(T, maxDepth) && SplitOf(T, S, q) && T[q].active && !T[q].hasChildren
    ensures forall k {:trigger Parent(k)} :: 0 < k < |S| && S[k].active ==>
              S[Parent(k)].active && S[Parent(k)].hasChildren
  {
    forall k | 0 < k < |S| && S[k].active
      ensures S[Parent(k)].active && S[Parent(k)].hasChildren
    {
      if Parent(k) != q {
        assert T[k].active && T[Parent(k)].active;
        assert !(Parent(k) > 0 && Parent(Parent(k)) == q);
      }
    }
  }

  /** The children of an active node with children after a split. */
  lemma SplitChildActive(T: seq<QuadTreeNode>, S: seq<QuadTreeNode>, maxDepth: nat, q: nat, k: nat)
    requires ActiveTree(T, maxDepth) && SplitOf(T, S, q) && T[q].active && T[q].depth < maxDepth
    requires k < |S| && S[k].active && S[k].hasChildren
    ensures S[k].depth < maxDepth && 4 * k + 4 < |S| && BlockActive(S, k)
  {
    if k != q {
      assert !(k > 0 && Parent(k) == q);
      assert S[k] == T[k];
      assert BlockActive(T, k);
      forall x | 4 * k + 1 <= x <= 4 * k + 4
        ensures S[x].active
      {
        assert T[x].active;
      }
    } else {
      forall x | 4 * q + 1 <= x <= 4 * q + 4
        ensures S[x].active
      {
        ChildOf(q, x - 4 * q - 1);
      }
    }
  }

  /** After the split of an active childless node above the depth limit, an
      active node with children is above the depth limit and has four active
      children. */
  lemma SplitChildren(T: seq<QuadTreeNode>, S: seq<QuadTreeNode>, maxDepth: nat, q: nat)
    requires ActiveTree(T, maxDepth) && SplitOf(T, S, q) && T[q].active && T[q].depth < maxDepth
    ensures forall k {:trigger S[k].hasChildren} :: 0 <= k < |S| && S[k].active && S[k].hasChildren ==>
              S[k].depth < maxDepth && 4 * k + 4 < |S| && BlockActive(S, k)
  {
    forall k | 0 <= k < |S| && S[k].active && S[k].hasChildren
      ensures S[k].depth < maxDepth && 4 * k + 4 < |S| && BlockActive(S, k)
    {
      SplitChildActive(T, S, maxDepth, q, k);
    }
  }

  /** The split of an active childless node empties its list and keeps every
      other list, and only active nodes hold shapes afterwards; the node now
      has children and its children were empty, so the bounds on lists hold. */
  lemma SplitLists(T: seq<QuadTreeNode>, S: seq<QuadTreeNode>, cfg: Config, q: nat)
    requires ActiveTree(T, cfg.maxDepth) && InactiveEmpty(T) && Capacity(T, cfg)
    requires SplitOf(T, S, q) && T[q].active && !T[q].hasChildren
    ensures InactiveEmpty(S) && Capacity(S, cfg) && Grows(T, S)
    ensures S[q].shapes == [] && forall k :: 0 <= k < |T| && k != q ==> S[k].shapes == T[k].shapes
  {
    SplitEmpty(T, S, q);
    SplitCapacity(T, S, cfg, q);
    SplitGrows(T, S, cfg.maxDepth, q);
  }

  lemma SplitEmpty(T: seq<QuadTreeNode>, S: seq<QuadTreeNode>, q: nat)
    requires InactiveEmpty(T) && SplitOf(T, S, q)
    ensures InactiveEmpty(S)
    ensures S[q].shapes == [] && forall k :: 0 <= k < |T| && k != q ==> S[k].shapes == T[k].shapes
  {
    forall k | 0 <= k < |S| && !S[k].active
      ensures S[k].shapes == []
    {
      if k != q && !(k > 0 && Parent(k) == q) {
        assert S[k] == T[k];
      }
    }
  }

  lemma SplitCapacity(T: seq<QuadTreeNode>, S: seq<QuadTreeNode>, cfg: Config, q: nat)
    requires ActiveTree(T, cfg.maxDepth) && InactiveEmpty(T) && Capacity(T, cfg)
    requires SplitOf(T, S, q) && T[q].active && !T[q].hasChildren
    ensures Capacity(S, cfg)
  {
    forall k | 0 <= k < |S| && !S[k].hasChildren && S[k].depth < cfg.maxDepth
      ensures |S[k].shapes| <= cfg.maxPerNode
    {
      if k > 0 && Parent(k) == q {
        ChildrenInactive(T, cfg.maxDepth, q, k);
        assert T[k].shapes == [];
      } else {
        assert k != q && S[k] == T[k];
      }
    }
  }

  lemma SplitGrows(T: seq<QuadTreeNode>, S: seq<QuadTreeNode>, maxDepth: nat, q: nat)
    requires ActiveTree(T, maxDepth) && SplitOf(T, S, q) && !T[q].hasChildren
    ensures Grows(T, S)
  {
    forall k | 0 < k < |T| && Parent(k) == q
      ensures !T[k].active
    {
      ChildrenInactive(T, maxDepth, q, k);
    }
  }

  /** The bag after the split: the node's shapes are taken out. */
  lemma SplitBag(T: seq<QuadTreeNode>, S: seq<QuadTreeNode>, q: nat)
    requires q < |T| == |S| && S[q].shapes == []
    requires forall k :: 0 <= k < |T| && k != q ==> S[k].shapes == T[k].shapes
    ensures Bag(S) + multiset(T[q].shapes) == Bag(T)
  {
    BagClear(T, q);
    BagLists(T[q := T[q].(shapes := [])], S);
  }

  /** After the split every shape still stored is still placed: it was not in
      the split node, so its way down does not pass through that node. */
  lemma SplitPlaced(T: seq<QuadTreeNode>, S: seq<QuadTreeNode>, collider: nat -> Collider, q: nat)
    requires Placement(T, collider) && SplitOf(T, S, q) && Layout(S) == Layout(T) && !T[q].hasChildren
    requires S[q].shapes == [] && forall k :: 0 <= k < |T| && k != q ==> S[k].shapes == T[k].shapes
    ensures Placement(S, collider)
  {
    forall k, t | 0 <= k < |S| && t in S[k].shapes
      ensures Good(S, collider(t)) && Home(S, collider(t), 0) == k
    {
      assert k != q && t in T[k].shapes;
      LayoutAt(T, S, 0);
      HomeFrame(T, S, collider(t), q);
    }
  }

  /** The split of an active childless node above the depth limit keeps the
      invariant, and takes the node's shapes out of the bag. */
  lemma SplitKeeps(T: seq<QuadTreeNode>, cfg: Config, collider: nat -> Collider, q: nat)
    requires Inv(T, cfg, collider) && q < |T| && T[q].active && !T[q].hasChildren
    requires T[q].depth < cfg.maxDepth
    ensures 4 * q + 4 < |T|
    ensures var S := Split(T, q);
            && Inv(S, cfg, collider) && Grows(T, S) && S[q].active && S[q].hasChildren
            && Bag(S) + multiset(T[q].shapes) == Bag(T)
  {
    IndexedAt(T, cfg.maxDepth, q);
    var S := Split(T, q);
    SplitAt(T, q);
    SplitParents(T, S, cfg.maxDepth, q);
    SplitChildren(T, S, cfg.maxDepth, q);
    SplitLists(T, S, cfg, q);
    SplitBag(T, S, q);
    SplitPlaced(T, S, collider, q);
    assert ActiveTree(S, cfg.maxDepth);
  }

  // ---------------------------------------------------------------------------
  // The walk of AddShape keeps the invariant

  /** A miss moves the walk to the next slot: after misses on the children of
      p before child j, the walk from the first child is the walk from child j. */
  lemma {:induction false} ScanInsert(T: seq<QuadTreeNode>, cfg: Config, collider: nat -> Collider, s: nat, p: nat, j: nat)
    requires Indexed(T, cfg.maxDepth) && 4 * p + 4 < |T| && j < 4
    requires forall i :: 0 <= i < j ==> Reading(T, collider(s), p, i) == 0
    ensures Insert(T, cfg, collider, s, 4 * p + 1) == Insert(T, cfg, collider, s, 4 * p + 1 + j)
    decreases j
  {
    if j > 0 {
      ScanInsert(T, cfg, collider, s, p, j - 1);
      InsertStep(T, cfg, collider, s, 4 * p + j);
      assert Reading(T, collider(s), p, j - 1) == CheckShapeNodeCollide(collider(s), T[4 * p + j]);
    }
  }

  /** From the first child of a node with children that strictly contains
      the collider of s, the walk continues at the child that strictly
      contains it, if there is one. */
  lemma InsertEnter(T: seq<QuadTreeNode>, cfg: Config, collider: nat -> Collider, s: nat, q: nat, j: nat)
    requires Indexed(T, cfg.maxDepth) && Tiled(T) && 4 * q + 4 < |T|
    requires Positive(collider(s)) && Inside(collider(s), T[q])
    requires j < 4 && FullChild(Layout(T), collider(s), q) == j
    ensures Insert(T, cfg, collider, s, 4 * q + 1) == Insert(T, cfg, collider, s, 4 * q + 1 + j)
  {
    BlockFull(T, collider(s), q);
    ScanInsert(T, cfg, collider, s, q, j);
  }

  /** From the first child of a node with children that strictly contains the
      collider of s but none of whose children does, the walk pushes s onto
      the node's list. */
  lemma InsertStraddle(T: seq<QuadTreeNode>, cfg: Config, collider: nat -> Collider, s: nat, q: nat)
    requires Indexed(T, cfg.maxDepth) && Tiled(T) && 4 * q + 4 < |T|
    requires Positive(collider(s)) && Inside(collider(s), T[q])
    requires FullChild(Layout(T), collider(s), q) == 4
    ensures Insert(T, cfg, collider, s, 4 * q + 1) == PushShape(T, q, s)
  {
    BlockStraddle(T, collider(s), q);
    var h := FirstHit(T, collider(s), q);
    ChildOf(q, h);
    InsertPartial(T, cfg, collider, s, 4 * q + 1 + h);
    ScanInsert(T, cfg, collider, s, q, h);
  }

  /** A partial hit below the root stores the shape with the parent. */
  lemma InsertPartial(T: seq<QuadTreeNode>, cfg: Config, collider: nat -> Collider, s: nat, k: nat)
    requires Indexed(T, cfg.maxDepth) && 0 < k < |T|
    requires CheckShapeNodeCollide(collider(s), T[k]) == 1
    ensures Insert(T, cfg, collider, s, k) == PushShape(T, Parent(k), s)
  {
    IndexedAt(T, cfg.maxDepth, k);
  }

  /** A shape held by slot q of T is ready to be walked down again from q in
      any vector S that grew from T with the same layout. */
  lemma HeldReady(T: seq<QuadTreeNode>, S: seq<QuadTreeNode>, cfg: Config, collider: nat -> Collider, q: nat, t: nat)
    requires Inv(T, cfg, collider) && q < |T| && t in T[q].shapes
    requires Grows(T, S) && Layout(S) == Layout(T)
    ensures Good(S, collider(t)) && OnPath(S, collider(t), q) && Inside(collider(t), S[q])
  {
    var c := collider(t);
    assert Good(T, c) && Home(T, c, 0) == q;
    assert OnPath(T, c, 0);
    HomeOnPath(T, cfg.maxDepth, c, 0);
    HomeInside(T, c, 0);
    PathKept(T, S, c, q);
    LayoutAt(T, S, 0);
    LayoutAt(T, S, q);
  }

  /** A shape on its way down at slot q is still on its way down at q in any
      vector S that grew from T with the same layout. */
  lemma WayKept(T: seq<QuadTreeNode>, S: seq<QuadTreeNode>, c: Collider, q: nat)
    requires Good(T, c) && OnPath(T, c, q) && Inside(c, T[q])
    requires Grows(T, S) && Layout(S) == Layout(T)
    ensures Good(S, c) && OnPath(S, c, q) && Inside(c, S[q])
  {
    PathKept(T, S, c, q);
    LayoutAt(T, S, 0);
    LayoutAt(T, S, q);
  }

  /** The walk of AddShape from an active slot q on the way down of a
      placeable shape s: the invariant holds afterwards and s has been added
      to the bag. */
  lemma {:induction false} WalkAt(T: seq<QuadTreeNode>, cfg: Config, collider: nat -> Collider, s: nat, q: nat)
    // Inv is compared with true so that a caller checks it as one fact
    // rather than unfolded conjunct by conjunct.
    requires Inv(T, cfg, collider) == true && Good(T, collider(s))
    requires OnPath(T, collider(s), q) && Inside(collider(s), T[q])
    ensures var R := Insert(T, cfg, collider, s, q);
            Inv(R, cfg, collider) && Grows(T, R) && Bag(R) == Bag(T) + multiset{s}
    decreases |T| - q, 5
  {
    if T[q].hasChildren {
      WalkDown(T, cfg, collider, s, q);
    } else if |T[q].shapes| >= cfg.maxPerNode && T[q].depth < cfg.maxDepth {
      WalkSplit(T, cfg, collider, s, q);
    } else {
      WalkHere(T, cfg, collider, s, q);
    }
  }

  /** WalkAt at a node with children: the walk goes on from its first child. */
  lemma {:induction false} WalkDown(T: seq<QuadTreeNode>, cfg: Config, collider: nat -> Collider, s: nat, q: nat)
    requires Inv(T, cfg, collider) && Good(T, collider(s))
    requires OnPath(T, collider(s), q) && Inside(collider(s), T[q]) && T[q].hasChildren
    ensures var R := Insert(T, cfg, collider, s, q);
            Inv(R, cfg, collider) && Grows(T, R) && Bag(R) == Bag(T) + multiset{s}
    decreases |T| - q, 4
  {
    DescendFrom(T, cfg, collider, s, q);
    InsideReadsFull(collider(s), T[q]);
    InsertDown(T, cfg, collider, s, q);
    KeptAlike(T, Insert(T, cfg, collider, s, q), Insert(T, cfg, collider, s, 4 * q + 1), cfg, collider, s);
  }

  /** WalkAt at a full childless node above the depth limit: the node is
      subdivided and the walk goes on from its first child. */
  lemma {:induction false} WalkSplit(T: seq<QuadTreeNode>, cfg: Config, collider: nat -> Collider, s: nat, q: nat)
    requires Inv(T, cfg, collider) && Good(T, collider(s))
    requires OnPath(T, collider(s), q) && Inside(collider(s), T[q]) && !T[q].hasChildren
    requires |T[q].shapes| >= cfg.maxPerNode && T[q].depth < cfg.maxDepth
    ensures var R := Insert(T, cfg, collider, s, q);
            Inv(R, cfg, collider) && Grows(T, R) && Bag(R) == Bag(T) + multiset{s}
    decreases |T| - q, 4
  {
    var c := collider(s);
    SubdivideAt(T, cfg, collider, q);
    var S := Subdivided(T, cfg, collider, q);
    WayKept(T, S, c, q);
    DescendFrom(S, cfg, collider, s, q);
    var R := Insert(S, cfg, collider, s, 4 * q + 1);
    GrowsTrans(T, S, R);
    InsideReadsFull(c, T[q]);
    InsertSplit(T, cfg, collider, s, q);
    KeptAlike(T, Insert(T, cfg, collider, s, q), R, cfg, collider, s);
  }

  /** WalkAt at a childless node that is not split: the shape is pushed onto
      its list. */
  lemma WalkHere(T: seq<QuadTreeNode>, cfg: Config, collider: nat -> Collider, s: nat, q: nat)
    requires Inv(T, cfg, collider) && Good(T, collider(s))
    requires OnPath(T, collider(s), q) && Inside(collider(s), T[q]) && !T[q].hasChildren
    requires !(|T[q].shapes| >= cfg.maxPerNode && T[q].depth < cfg.maxDepth)
    ensures var R := Insert(T, cfg, collider, s, q);
            Inv(R, cfg, collider) && Grows(T, R) && Bag(R) == Bag(T) + multiset{s}
  {
    var c := collider(s);
    PathHome(T, c, q);
    HomeStep(T, c, q);
    PushKeeps(T, cfg, collider, q, s);
    InsideReadsFull(c, T[q]);
    InsertHere(T, cfg, collider, s, q);
    KeptAlike(T, Insert(T, cfg, collider, s, q), PushShape(T, q, s), cfg, collider, s);
  }

  /** The subdivision of an active childless slot q above the depth limit,
      with the re-insertion of its shapes: the invariant holds afterwards,
      the bag is unchanged and q has children. */
  lemma {:induction false} SubdivideAt(T: seq<QuadTreeNode>, cfg: Config, collider: nat -> Collider, q: nat)
    requires Inv(T, cfg, collider) && q < |T| && T[q].active && !T[q].hasChildren
    requires T[q].depth < cfg.maxDepth
    ensures var S := Subdivided(T, cfg, collider, q);
            Inv(S, cfg, collider) && Grows(T, S) && Bag(S) == Bag(T) && S[q].hasChildren
    decreases |T| - q, 3
  {
    SplitKeeps(T, cfg, collider, q);
    var S0 := Split(T, q);
    HeldAllReady(T, S0, cfg, collider, q);
    DescendAll(S0, cfg, collider, T[q].shapes, q);
    SplitSteps(T, S0, InsertAll(S0, cfg, collider, T[q].shapes, 4 * q + 1), q);
    SubdividedIs(T, cfg, collider, q);
  }

  /** Subdivided walks the shapes q held from the first child of q. */
  lemma SubdividedIs(T: seq<QuadTreeNode>, cfg: Config, collider: nat -> Collider, q: nat)
    requires Indexed(T, cfg.maxDepth) && q < |T| && T[q].depth < cfg.maxDepth
    ensures 4 * q + 4 < |T| && Indexed(Split(T, q), cfg.maxDepth)
    ensures Subdivided(T, cfg, collider, q) == InsertAll(Split(T, q), cfg, collider, T[q].shapes, 4 * q + 1)
  {
    IndexedAt(T, cfg.maxDepth, q);
    var first := T[q].children[0];
    assert first == 4 * q + 1;
    assert Layout(Split(T, q)) == Layout(T);
  }

  /** Every shape held by slot q of T is ready to be walked down again from
      q in S. */
  lemma HeldAllReady(T: seq<QuadTreeNode>, S: seq<QuadTreeNode>, cfg: Config, collider: nat -> Collider, q: nat)
    requires Inv(T, cfg, collider) && q < |T|
    requires Grows(T, S) && Layout(S) == Layout(T)
    ensures forall t :: t in T[q].shapes ==>
              Good(S, collider(t)) && OnPath(S, collider(t), q) && Inside(collider(t), S[q])
  {
    forall t | t in T[q].shapes
      ensures Good(S, collider(t)) && OnPath(S, collider(t), q) && Inside(collider(t), S[q])
    {
      HeldReady(T, S, cfg, collider, q, t);
    }
  }

  /** Growth and the bag across a split of q and the walks of the shapes q
      held. */
  lemma SplitSteps(T: seq<QuadTreeNode>, S0: seq<QuadTreeNode>, S: seq<QuadTreeNode>, q: nat)
    requires q < |T| && Grows(T, S0) && Grows(S0, S) && S0[q].active && S0[q].hasChildren
    requires Bag(S0) + multiset(T[q].shapes) == Bag(T) && Bag(S) == Bag(S0) + multiset(T[q].shapes)
    ensures Grows(T, S) && Bag(S) == Bag(T) && S[q].hasChildren
  {
    GrowsTrans(T, S0, S);
  }

  /** The walks of a list of placeable shapes, each on its way down at slot q
      that has children, from the first child of q. */
  lemma {:induction false} DescendAll(T: seq<QuadTreeNode>, cfg: Config, collider: nat -> Collider, list: seq<nat>, q: nat)
    requires Inv(T, cfg, collider) && q < |T| && T[q].active && T[q].hasChildren
    requires forall t :: t in list ==>
               Good(T, collider(t)) && OnPath(T, collider(t), q) && Inside(collider(t), T[q])
    ensures var R := InsertAll(T, cfg, collider, list, 4 * q + 1);
            Inv(R, cfg, collider) && Grows(T, R) && Bag(R) == Bag(T) + multiset(list)
    decreases |T| - q, 2, |list|
  {
    if list != [] {
      DescendFrom(T, cfg, collider, list[0], q);
      var T1 := Insert(T, cfg, collider, list[0], 4 * q + 1);
      ListKept(T, T1, collider, list, q);
      DescendAll(T1, cfg, collider, list[1..], q);
      BagSteps(T, T1, InsertAll(T1, cfg, collider, list[1..], 4 * q + 1), list);
    }
  }

  /** The rest of a list of shapes on their way down at q stays on its way
      down after the first has been walked. */
  lemma ListKept(T: seq<QuadTreeNode>, T1: seq<QuadTreeNode>, collider: nat -> Collider, list: seq<nat>, q: nat)
    requires list != [] && Grows(T, T1) && Layout(T1) == Layout(T)
    requires forall t :: t in list ==>
               Good(T, collider(t)) && OnPath(T, collider(t), q) && Inside(collider(t), T[q])
    ensures forall t :: t in list[1..] ==>
              Good(T1, collider(t)) && OnPath(T1, collider(t), q) && Inside(collider(t), T1[q])
  {
    forall t | t in list[1..]
      ensures Good(T1, collider(t)) && OnPath(T1, collider(t), q) && Inside(collider(t), T1[q])
    {
      WayKept(T, T1, collider(t), q);
    }
  }

  /** Growth and the bag across the first walk of a list and the walks of
      the rest. */
  lemma BagSteps(T: seq<QuadTreeNode>, T1: seq<QuadTreeNode>, R: seq<QuadTreeNode>, list: seq<nat>)
    requires list != [] && Grows(T, T1) && Grows(T1, R)
    requires Bag(T1) == Bag(T) + multiset{list[0]} && Bag(R) == Bag(T1) + multiset(list[1..])
    ensures Grows(T, R) && Bag(R) == Bag(T) + multiset(list)
  {
    GrowsTrans(T, T1, R);
    MultisetFirst(list);
  }

  lemma MultisetFirst(list: seq<nat>)
    requires list != []
    ensures multiset(list) == multiset{list[0]} + multiset(list[1..])
  {
    assert list == [list[0]] + list[1..];
  }

  /** The walk of a placeable shape on its way down at slot q that has
      children, from the first child of q. */
  lemma {:induction false} DescendFrom(T: seq<QuadTreeNode>, cfg: Config, collider: nat -> Collider, s: nat, q: nat)
    requires Inv(T, cfg, collider) && Good(T, collider(s))
    requires OnPath(T, collider(s), q) && T[q].hasChildren && Inside(collider(s), T[q])
    ensures var R := Insert(T, cfg, collider, s, 4 * q + 1);
            Inv(R, cfg, collider) && Grows(T, R) && Bag(R) == Bag(T) + multiset{s}
    decreases |T| - q, 1
  {
    var j := FullChild(Layout(T), collider(s), q);
    if j < 4 {
      EnterAt(T, cfg, collider, s, q, j);
    } else {
      StraddleAt(T, cfg, collider, s, q);
    }
  }

  /** The walk of a placeable shape that child j of q holds strictly, from
      the first child of q: it goes on from child j. */
  lemma {:induction false} EnterAt(T: seq<QuadTreeNode>, cfg: Config, collider: nat -> Collider, s: nat, q: nat, j: nat)
    requires Inv(T, cfg, collider) && Good(T, collider(s))
    requires OnPath(T, collider(s), q) && T[q].hasChildren && Inside(collider(s), T[q])
    requires j < 4 && FullChild(Layout(T), collider(s), q) == j
    ensures var R := Insert(T, cfg, collider, s, 4 * q + 1);
            Inv(R, cfg, collider) && Grows(T, R) && Bag(R) == Bag(T) + multiset{s}
    decreases |T| - q, 0
  {
    var k := 4 * q + 1 + j;
    EnterReady(T, cfg.maxDepth, collider(s), q, j);
    InsertEnter(T, cfg, collider, s, q, j);
    WalkAt(T, cfg, collider, s, k);
    KeptAlike(T, Insert(T, cfg, collider, s, 4 * q + 1), Insert(T, cfg, collider, s, k), cfg, collider, s);
  }

  /** What a walk keeps carries over to an equal node vector. */
  lemma KeptAlike(T: seq<QuadTreeNode>, R: seq<QuadTreeNode>, S: seq<QuadTreeNode>, cfg: Config, collider: nat -> Collider, s: nat)
    requires R == S && Inv(S, cfg, collider) && Grows(T, S) && Bag(S) == Bag(T) + multiset{s}
    ensures Inv(R, cfg, collider) && Grows(T, R) && Bag(R) == Bag(T) + multiset{s}
  {
  }

  /** A collider on its way down at q that child j of q holds strictly is on
      its way down at that child. */
  lemma EnterReady(T: seq<QuadTreeNode>, maxDepth: nat, c: Collider, q: nat, j: nat)
    requires ActiveTree(T, maxDepth) && OnPath(T, c, q) && T[q].hasChildren
    requires j < 4 && FullChild(Layout(T), c, q) == j
    ensures 4 * q + 4 < |T| && OnPath(T, c, 4 * q + 1 + j) && Inside(c, T[4 * q + 1 + j])
  {
    var k := 4 * q + 1 + j;
    ChildActive(T, maxDepth, q, j);
    ChildOf(q, j);
    OnPathStep(T, c, q, k);
    FullChildInside(Layout(T), c, q, j);
    StaticAt(T, k);
  }

  lemma FullChildInside(L: seq<QuadTreeNode>, c: Collider, p: nat, j: nat)
    requires 4 * p + 4 < |L| && j < 4 && FullChild(L, c, p) == j
    ensures Inside(c, L[4 * p + 1 + j])
  {
  }

  /** One step down the way of c. */
  lemma OnPathStep(T: seq<QuadTreeNode>, c: Collider, p: nat, k: nat)
    requires OnPath(T, c, p) && T[p].hasChildren && 4 * p + 4 < |T|
    requires 0 < k < |T| && T[k].active && Parent(k) == p
    requires FullChild(Layout(T), c, p) == ChildSlot(k)
    ensures OnPath(T, c, k)
  {
  }

  /** Slot k of the layout is slot k without its list and flags. */
  lemma StaticAt(T: seq<QuadTreeNode>, k: nat)
    requires k < |T|
    ensures Layout(T)[k] == Static(T[k]) && BoundsOf(Layout(T)[k]) == BoundsOf(T[k])
  {
  }

  /** The walk of a placeable shape that no child of q holds, from the first
      child of q: the shape stops at q. */
  lemma StraddleAt(T: seq<QuadTreeNode>, cfg: Config, collider: nat -> Collider, s: nat, q: nat)
    requires Inv(T, cfg, collider) && Good(T, collider(s))
    requires OnPath(T, collider(s), q) && T[q].hasChildren && Inside(collider(s), T[q])
    requires FullChild(Layout(T), collider(s), q) == 4
    ensures var R := Insert(T, cfg, collider, s, 4 * q + 1);
            Inv(R, cfg, collider) && Grows(T, R) && Bag(R) == Bag(T) + multiset{s}
  {
    var c := collider(s);
    ChildActive(T, cfg.maxDepth, q, 0);
    PathHome(T, c, q);
    HomeStep(T, c, q);
    PushKeeps(T, cfg, collider, q, s);
    InsertStraddle(T, cfg, collider, s, q);
  }

  /** AddShape(shape, q) for a shape on its way down at q keeps the invariant
      and adds the shape to the bag. */
  lemma WalkAdds(T: seq<QuadTreeNode>, R: seq<QuadTreeNode>, cfg: Config, collider: nat -> Collider, s: nat, q: nat)
    requires Indexed(T, cfg.maxDepth) && R == Insert(T, cfg, collider, s, q)
    ensures var c := collider(s);
            Inv(T, cfg, collider) && Good(T, c) && OnPath(T, c, q) && Inside(c, T[q]) ==>
              Inv(R, cfg, collider) && Grows(T, R) && Bag(R) == Bag(T) + multiset{s}
  {
    var c := collider(s);
    if Inv(T, cfg, collider) && Good(T, c) && OnPath(T, c, q) && Inside(c, T[q]) {
      WalkAt(T, cfg, collider, s, q);
    }
  }

  /** The subdivision of an active childless node keeps the invariant and the
      bag, and leaves the node with children. */
  lemma SubdivisionKeeps(T: seq<QuadTreeNode>, cfg: Config, collider: nat -> Collider, k: nat)
    requires Indexed(T, cfg.maxDepth) && k < |T| && T[k].depth < cfg.maxDepth
    ensures Inv(T, cfg, collider) && T[k].active && !T[k].hasChildren ==>
              var S := Subdivided(T, cfg, collider, k);
              Inv(S, cfg, collider) && Grows(T, S) && Bag(S) == Bag(T) && S[k].hasChildren
  {
    if Inv(T, cfg, collider) && T[k].active && !T[k].hasChildren {
      SubdivideAt(T, cfg, collider, k);
    }
  }

  // ---------------------------------------------------------------------------
  // The rebuild of UpdateQuadtree

  /** The walk of AddShape(shape, 0) of a placeable shape keeps the invariant
      and adds the shape to the bag. */
  lemma RootWalk(T: seq<QuadTreeNode>, cfg: Config, collider: nat -> Collider, s: nat)
    requires Inv(T, cfg, collider) && Good(T, collider(s))
    ensures var R := Insert(T, cfg, collider, s, 0);
            Inv(R, cfg, collider) && Grows(T, R) && Bag(R) == Bag(T) + multiset{s}
  {
    assert OnPath(T, collider(s), 0);
    WalkAt(T, cfg, collider, s, 0);
  }

  /** Placeability reads only the layout. */
  lemma GoodKept(T: seq<QuadTreeNode>, R: seq<QuadTreeNode>, collider: nat -> Collider, list: seq<nat>)
    requires Layout(R) == Layout(T) && |T| > 0
    requires forall t :: t in list ==> Good(T, collider(t))
    ensures forall t :: t in list ==> Good(R, collider(t))
  {
    LayoutAt(T, R, 0);
  }

  /** The walks of AddShape(shape, 0) for a list of placeable shapes keep the
      invariant and add the list to the bag. */
  lemma {:induction false} RootWalks(T: seq<QuadTreeNode>, cfg: Config, collider: nat -> Collider, list: seq<nat>)
    requires Inv(T, cfg, collider)
    requires forall t :: t in list ==> Good(T, collider(t))
    ensures var R := InsertAll(T, cfg, collider, list, 0);
            Inv(R, cfg, collider) && Grows(T, R) && Bag(R) == Bag(T) + multiset(list)
    decreases |list|
  {
    if list != [] {
      RootWalk(T, cfg, collider, list[0]);
      var T1 := Insert(T, cfg, collider, list[0], 0);
      GoodKept(T, T1, collider, list[1..]);
      RootWalks(T1, cfg, collider, list[1..]);
      BagSteps(T, T1, InsertAll(T1, cfg, collider, list[1..], 0), list);
    }
  }

  /** After Reset only the root is active, it has no children and every list
      is empty: the invariant holds with the empty bag. */
  lemma ResetKeeps(T: seq<QuadTreeNode>, cfg: Config, collider: nat -> Collider)
    requires Indexed(T, cfg.maxDepth) && Tiled(T) && |T| > 0
    ensures var R := Reset(T);
            Inv(R, cfg, collider) && Bag(R) == multiset{}
            && R[0].active && !R[0].hasChildren
            && forall k :: 0 < k < |R| ==> !R[k].active
  {
    var R := Reset(T);
    assert |R| == |Layout(R)| == |T|;
    assert forall k :: 0 <= k < |R| ==> R[k].shapes == [];
    BagEmpty(R);
  }

  /** A shape held by a node with children straddles the midlines of that
      node: no child holds it strictly, and the first child it is not missed
      by classifies it as a partial collision. */
  lemma HeldStraddles(T: seq<QuadTreeNode>, cfg: Config, collider: nat -> Collider, k: nat, t: nat)
    requires Inv(T, cfg, collider) && k < |T| && t in T[k].shapes && T[k].hasChildren
    ensures 4 * k + 4 < |T| && FullChild(Layout(T), collider(t), k) == 4
    ensures FirstHit(T, collider(t), k) < 4 && Reading(T, collider(t), k, FirstHit(T, collider(t), k)) == 1
  {
    var c := collider(t);
    assert Good(T, c) && Home(T, c, 0) == k;
    assert T[k].active;
    ChildActive(T, cfg.maxDepth, k, 0);
    HomeInside(T, c, 0);
    HomeStep(T, c, k);
    HomeOnPath(T, cfg.maxDepth, c, 0);
    PathHome(T, c, k);
    BlockStraddle(T, c, k);
  }

  /** A placed shape is found by the walk of GetNearbyShapes from the root:
      the query names the slot whose list holds it. */
  lemma HeldFound(T: seq<QuadTreeNode>, cfg: Config, collider: nat -> Collider, k: nat, t: nat)
    requires Inv(T, cfg, collider) && k < |T| && t in T[k].shapes
    ensures QueryFrom(T, cfg.maxDepth, collider(t), 0) == Some(k)
  {
    var c := collider(t);
    assert Good(T, c) && Home(T, c, 0) == k;
    QueryHome(T, cfg.maxDepth, c, 0);
  }

  /** A node with children holds only shapes that straddle its midlines: no
      child holds one strictly, and the first child it is not missed by
      classifies it as a partial collision. */
  ghost predicate Straddling(T: seq<QuadTreeNode>, collider: nat -> Collider)
  {
    forall k, t :: 0 <= k < |T| && t in T[k].shapes && T[k].hasChildren ==>
      && 4 * k + 4 < |T| && FullChild(Layout(T), collider(t), k) == 4
      && FirstHit(T, collider(t), k) < 4 && Reading(T, collider(t), k, FirstHit(T, collider(t), k)) == 1
  }

  /** The query for the collider of each listed shape names a list that
      holds it. */
  ghost predicate Found(T: seq<QuadTreeNode>, maxDepth: nat, collider: nat -> Collider, list: seq<nat>)
    requires Indexed(T, maxDepth)
  {
    forall t :: t in list ==>
      var q := QueryFrom(T, maxDepth, collider(t), 0);
      q.Some? && t in T[q.value].shapes
  }

  lemma AllStraddling(T: seq<QuadTreeNode>, cfg: Config, collider: nat -> Collider)
    requires Inv(T, cfg, collider)
    ensures Straddling(T, collider)
  {
    forall k, t | 0 <= k < |T| && t in T[k].shapes && T[k].hasChildren
      ensures && 4 * k + 4 < |T| && FullChild(Layout(T), collider(t), k) == 4
              && FirstHit(T, collider(t), k) < 4 && Reading(T, collider(t), k, FirstHit(T, collider(t), k)) == 1
    {
      HeldStraddles(T, cfg, collider, k, t);
    }
  }

  lemma AllFound(T: seq<QuadTreeNode>, cfg: Config, collider: nat -> Collider, list: seq<nat>)
    requires Inv(T, cfg, collider) && Bag(T) == multiset(list)
    ensures Found(T, cfg.maxDepth, collider, list)
  {
    forall t | t in list
      ensures var q := QueryFrom(T, cfg.maxDepth, collider(t), 0);
              q.Some? && t in T[q.value].shapes
    {
      assert t in Bag(T);
      BagMember(T, t);
      var k :| 0 <= k < |T| && t in T[k].shapes;
      HeldFound(T, cfg, collider, k, t);
    }
  }

  /** UpdateQuadtree on an indexed, tiled vector whose registered shapes all
      have positive extents and lie strictly inside the root: afterwards every
      registered shape is stored exactly as often as it is registered and
      nowhere else, the query for its collider names a list that holds it, a
      childless node above the depth limit holds at most maxPerNode shapes, a
      node with children holds only shapes that straddle its midlines, and
      the active nodes form a tree hanging from the root. */
  lemma RebuildPlaces(T: seq<QuadTreeNode>, cfg: Config, collider: nat -> Collider, shapes: seq<nat>)
    requires Indexed(T, cfg.maxDepth) && Tiled(T) && |T| > 0
    requires forall t :: t in shapes ==> Positive(collider(t)) && Inside(collider(t), T[0])
    ensures var R := InsertAll(Reset(T), cfg, collider, shapes, 0);
            && Inv(R, cfg, collider) && Bag(R) == multiset(shapes)
            && Found(R, cfg.maxDepth, collider, shapes) && Straddling(R, collider)
  {
    var R0 := Reset(T);
    ResetKeeps(T, cfg, collider);
    LayoutAt(T, R0, 0);
    RootWalks(R0, cfg, collider, shapes);
    var R := InsertAll(R0, cfg, collider, shapes, 0);
    AllFound(R, cfg, collider, shapes);
    AllStraddling(R, cfg, collider);
  }
}
