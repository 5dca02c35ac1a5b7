/** The invariant of UpdateKDtree, which re-splits the tree every frame. A
    stack of (start, end, node) frames is worked off: a node stores its range,
    sorts that range of the shape vector along its axis, takes the median's
    coordinate as its split value and, when it lies above the split depth and
    its range holds at least three shapes, pushes the part before the median
    for its left child and the part after it for its right child. */
module KDSplit {
  import opened DepthSums
  import opened Sorting
  import opened KDNodes

  /** Integer division by 2 as C++ does it, truncating toward zero. */
  function Half(x: int): int
  {
    if x >= 0 then x / 2 else -((-x) / 2)
  }

  /** The median slot of a range, start + (end - start) / 2. */
  function Mid(start: int, end: int): int
  {
    start + Half(end - start)
  }

  /** The median of a non-empty range lies in it, strictly inside exactly when
      the range holds at least three slots. */
  lemma MidInside(start: int, end: int)
    requires start <= end
    ensures start <= Mid(start, end) <= end
    ensures Mid(start, end) != start && Mid(start, end) != end <==> end - start >= 2
  {
  }

  /** The node pushes its two halves: it lies above the split depth and the
      median of its range is neither end of it. */
  predicate Pushes(n: KDTreeNode, maxDepth: nat)
  {
    n.depth < maxDepth && Mid(n.start, n.end) != n.start && Mid(n.start, n.end) != n.end
  }

  /** The range pushed for the child in slot k of the split node p: the part
      before p's median for a left (odd) slot, the part after it for a right
      (even) one. */
  predicate ChildRange(p: KDTreeNode, k: nat, start: int, end: int)
  {
    if k % 2 == 1 then start == p.start && end == Mid(p.start, p.end) - 1
    else start == Mid(p.start, p.end) + 1 && end == p.end
  }

  /** Keys of s before position m (from lo) are at most v, those after it (up to hi) at least v. */
  ghost predicate SplitAround(s: seq<nat>, lo: int, m: int, hi: int, key: nat -> real, v: real)
  {
    && (forall i :: lo <= i < m && 0 <= i < |s| ==> key(s[i]) <= v)
    && (forall i :: m < i <= hi && 0 <= i < |s| ==> v <= key(s[i]))
  }

  /** What a visited node leaves in the shape vector: its range lies inside the
      vector, its split value is the coordinate of the median shape on its
      axis, and the range is split around that value when the node pushes, and
      sorted when it does not. */
  ghost predicate Placed(n: KDTreeNode, s: seq<nat>, maxDepth: nat, position: nat -> Position)
  {
    && 0 <= n.start <= n.end < |s|
    && n.axisValue == Key(position, n.axis)(s[Mid(n.start, n.end)])
    && (Pushes(n, maxDepth) ==>
          SplitAround(s, n.start, Mid(n.start, n.end), n.end, Key(position, n.axis), n.axisValue))
    && (!Pushes(n, maxDepth) ==> SortedRange(s, n.start, n.end, Key(position, n.axis)))
  }

  /** DeactivateNode: the node is inactive and its split value 0. */
  function Deactivate(n: KDTreeNode): KDTreeNode
  {
    n.(active := false, axisValue := 0.0)
  }

  /** Every node of the vector deactivated. */
  function Deactivated(T: seq<KDTreeNode>): seq<KDTreeNode>
  {
    seq(|T|, k requires 0 <= k < |T| => Deactivate(T[k]))
  }

  /** A visited node: its range stored, activated with its split value. */
  function Visit(n: KDTreeNode, start: int, end: int, v: real): KDTreeNode
  {
    n.(start := start, end := end, active := true, axisValue := v)
  }

  /** Deactivating and visiting keep the construction shape. */
  lemma DeactivatedLayout(T: seq<KDTreeNode>)
    ensures Layout(Deactivated(T)) == Layout(T)
    ensures forall k :: 0 <= k < |T| ==> !Deactivated(T)[k].active
  {
  }

  lemma VisitLayout(T: seq<KDTreeNode>, j: nat, start: int, end: int, v: real)
    requires j < |T|
    ensures Layout(T[j := Visit(T[j], start, end, v)]) == Layout(T)
  {
    assert Static(Visit(T[j], start, end, v)) == Static(T[j]);
  }

  // ---------------------------------------------------------------------------
  // The frame stack

  /** One entry of the three stacks of UpdateKDtree. */
  datatype Frame = Frame(start: int, end: int, node: nat)

  function Starts(F: seq<Frame>): seq<int>
  {
    seq(|F|, i requires 0 <= i < |F| => F[i].start)
  }

  function Ends(F: seq<Frame>): seq<int>
  {
    seq(|F|, i requires 0 <= i < |F| => F[i].end)
  }

  function Nodes(F: seq<Frame>): seq<int>
  {
    seq(|F|, i requires 0 <= i < |F| => F[i].node)
  }

  /** The frames a visited node in slot j pushes: the part of its range before
      the median for slot 2j + 1, then the part after it for slot 2j + 2. */
  function Pushed(n: KDTreeNode, j: nat, maxDepth: nat): seq<Frame>
  {
    if Pushes(n, maxDepth)
    then [Frame(n.start, Mid(n.start, n.end) - 1, 2 * j + 1), Frame(Mid(n.start, n.end) + 1, n.end, 2 * j + 2)]
    else []
  }

  /** The three stacks after popping their tops. */
  lemma FramesPop(F: seq<Frame>)
    requires |F| > 0
    ensures var f, n := F[|F| - 1], |F| - 1;
            && Starts(F)[n] == f.start && Ends(F)[n] == f.end && Nodes(F)[n] == f.node
            && Starts(F)[..n] == Starts(F[..n]) && Ends(F)[..n] == Ends(F[..n]) && Nodes(F)[..n] == Nodes(F[..n])
  {
  }

  /** The three stacks after pushing two frames. */
  lemma FramesPush(F: seq<Frame>, a: Frame, b: Frame)
    ensures Starts(F + [a, b]) == Starts(F) + [a.start, b.start]
    ensures Ends(F + [a, b]) == Ends(F) + [a.end, b.end]
    ensures Nodes(F + [a, b]) == Nodes(F) + [a.node, b.node]
  {
  }

  // ---------------------------------------------------------------------------
  // The state of the loop

  /** The popped slots are the active ones; the others hold their record as
      deactivated at the start. */
  ghost predicate Activity(T: seq<KDTreeNode>, D: seq<KDTreeNode>, done: set<nat>)
  {
    && |T| == |D|
    && (forall k :: k in done ==> k < |T|)
    && (forall k :: 0 <= k < |T| ==> (T[k].active <==> k in done))
    && (forall k :: 0 <= k < |T| && k !in done ==> T[k] == D[k])
  }

  /** Every popped node has left its split in the shape vector. */
  ghost predicate DonePlaced(T: seq<KDTreeNode>, s: seq<nat>, maxDepth: nat, position: nat -> Position, done: set<nat>)
  {
    forall k {:trigger Placed(T[k], s, maxDepth, position)} :: k in done && k < |T| ==> Placed(T[k], s, maxDepth, position)
  }

  /** The range a node in slot k is given: the whole vector of N shapes for
      the root, the side of its parent's range for another slot, the parent
      then pushing. */
  predicate LinkedRange(T: seq<KDTreeNode>, N: int, maxDepth: nat, k: nat, start: int, end: int)
  {
    if k == 0 then start == 0 && end == N - 1
    else Parent(k) < |T| && Pushes(T[Parent(k)], maxDepth) && ChildRange(T[Parent(k)], k, start, end)
  }

  /** The popped node in slot k holds the range it was given. */
  predicate Linked(T: seq<KDTreeNode>, N: int, maxDepth: nat, k: nat)
    requires k < |T|
  {
    LinkedRange(T, N, maxDepth, k, T[k].start, T[k].end)
  }

  /** Popped nodes have popped parents and hold the ranges they were given. */
  ghost predicate DoneLinked(T: seq<KDTreeNode>, N: int, maxDepth: nat, done: set<nat>)
  {
    && (forall k {:trigger Parent(k)} :: k in done && k != 0 ==> Parent(k) in done)
    && (forall k {:trigger Linked(T, N, maxDepth, k)} :: k in done && k < |T| ==> Linked(T, N, maxDepth, k))
  }

  /** A pending frame names an unpopped slot whose parent is popped, with a
      non-empty range inside the vector, the one the slot is given. */
  ghost predicate FrameWell(T: seq<KDTreeNode>, N: int, maxDepth: nat, done: set<nat>, f: Frame)
  {
    && f.node < |T| && f.node !in done && 0 <= f.start <= f.end < N
    && (f.node != 0 ==> Parent(f.node) in done)
    && LinkedRange(T, N, maxDepth, f.node, f.start, f.end)
  }

  /** The pending frames are well formed, name distinct slots and have
      disjoint ranges. */
  ghost predicate FramesWell(T: seq<KDTreeNode>, N: int, maxDepth: nat, done: set<nat>, F: seq<Frame>)
  {
    && (forall i :: 0 <= i < |F| ==> FrameWell(T, N, maxDepth, done, F[i]))
    && (forall i, i' :: 0 <= i < i' < |F| ==>
          F[i].node != F[i'].node && (F[i].end < F[i'].start || F[i'].end < F[i].start))
  }

  /** A popped node and a pending frame: their ranges are disjoint, or the node
      pushes and the frame lies within the part of its range before the median
      or within the part after it. */
  predicate Respects(n: KDTreeNode, maxDepth: nat, f: Frame)
  {
    || f.end < n.start || n.end < f.start
    || (Pushes(n, maxDepth) && n.start <= f.start && f.end < Mid(n.start, n.end))
    || (Pushes(n, maxDepth) && Mid(n.start, n.end) < f.start && f.end <= n.end)
  }

  /** No pending frame can disturb the split of a popped node. */
  ghost predicate FramesRespect(T: seq<KDTreeNode>, maxDepth: nat, done: set<nat>, F: seq<Frame>)
  {
    forall k, i :: k in done && k < |T| && 0 <= i < |F| ==> Respects(T[k], maxDepth, F[i])
  }

  /** The slot c is popped or pending. */
  predicate Reached(done: set<nat>, F: seq<Frame>, c: nat)
  {
    c in done || c in Nodes(F)
  }

  /** The children of a popped node that pushes are popped or pending. */
  ghost predicate Closure(T: seq<KDTreeNode>, maxDepth: nat, done: set<nat>, F: seq<Frame>)
  {
    forall k {:trigger Pushes(T[k], maxDepth)} :: k in done && k < |T| && Pushes(T[k], maxDepth) ==>
      Reached(done, F, 2 * k + 1) && Reached(done, F, 2 * k + 2)
  }

  /** The state of UpdateKDtree's loop over the node vector T, the vector D it
      deactivated, the shape vector s, the popped slots and the pending frames. */
  ghost predicate SplitState(T: seq<KDTreeNode>, D: seq<KDTreeNode>, s: seq<nat>, maxDepth: nat,
                             position: nat -> Position, done: set<nat>, F: seq<Frame>)
  {
    && Activity(T, D, done)
    && DonePlaced(T, s, maxDepth, position, done)
    && DoneLinked(T, |s|, maxDepth, done)
    && FramesWell(T, |s|, maxDepth, done, F)
    && FramesRespect(T, maxDepth, done, F)
    && Closure(T, maxDepth, done, F)
    && (0 in done || (done == {} && F == [Frame(0, |s| - 1, 0)]))
  }

  /** What UpdateKDtree promises of the node vector T and the shape vector s,
      D being the vector it deactivated: the root is active with the whole
      vector as its range; a node below it is active exactly when its parent is
      active and pushes, and then has the side of its parent's range; an
      inactive node keeps its deactivated record; and every active node has
      left its split in the shape vector. */
  ghost predicate Rebuilt(T: seq<KDTreeNode>, D: seq<KDTreeNode>, s: seq<nat>, maxDepth: nat, position: nat -> Position)
  {
    && |T| == |D| && 0 < |T|
    && T[0].active && T[0].start == 0 && T[0].end == |s| - 1
    && (forall k {:trigger Parent(k)} :: 0 < k < |T| ==>
          (T[k].active <==> T[Parent(k)].active && Pushes(T[Parent(k)], maxDepth)))
    && (forall k {:trigger Parent(k)} :: 0 < k < |T| && T[k].active ==>
          ChildRange(T[Parent(k)], k, T[k].start, T[k].end))
    && (forall k :: 0 <= k < |T| && !T[k].active ==> T[k] == D[k])
    && (forall k :: 0 <= k < |T| && T[k].active ==> Placed(T[k], s, maxDepth, position))
  }

  // ---------------------------------------------------------------------------
  // Establishing, keeping and concluding the state

  /** Before the loop: nothing popped, the root frame covering the vector pending. */
  lemma RebuildStart(D: seq<KDTreeNode>, s: seq<nat>, maxDepth: nat, position: nat -> Position)
    requires 0 < |D| && 0 < |s|
    requires forall k :: 0 <= k < |D| ==> !D[k].active
    ensures SplitState(D, D, s, maxDepth, position, {}, [Frame(0, |s| - 1, 0)])
  {
  }

  /** A sort of positions lo .. hi of s into t by key. */
  ghost predicate Resorted(s: seq<nat>, t: seq<nat>, lo: int, hi: int, key: nat -> real)
  {
    && |t| == |s| && multiset(t) == multiset(s)
    && SameOutside(t, s, lo, hi) && SortedRange(t, lo, hi, key)
  }

  /** A split whose range the sort does not touch survives it. */
  lemma PlacedApart(n: KDTreeNode, s: seq<nat>, t: seq<nat>, lo: int, hi: int, maxDepth: nat, position: nat -> Position)
    requires Placed(n, s, maxDepth, position)
    requires SameOutside(t, s, lo, hi) && (hi < n.start || n.end < lo)
    ensures Placed(n, t, maxDepth, position)
  {
    assert t[Mid(n.start, n.end)] == s[Mid(n.start, n.end)];
    var key := Key(position, n.axis);
    if !Pushes(n, maxDepth) {
      forall a, b | n.start <= a < b <= n.end
        ensures key(t[a]) <= key(t[b])
      {
        assert t[a] == s[a] && t[b] == s[b];
      }
    } else {
      var m := Mid(n.start, n.end);
      forall i | n.start <= i <= n.end
        ensures t[i] == s[i]
      {
      }
    }
  }

  /** A split survives a sort inside one of its sides: the sorted shapes all
      came from that side. */
  lemma PlacedWithin(n: KDTreeNode, s: seq<nat>, t: seq<nat>, lo: int, hi: int, maxDepth: nat, position: nat -> Position)
    requires Placed(n, s, maxDepth, position) && Pushes(n, maxDepth)
    requires 0 <= lo <= hi < |s|
    requires |t| == |s| && multiset(t) == multiset(s) && SameOutside(t, s, lo, hi)
    requires (n.start <= lo && hi < Mid(n.start, n.end)) || (Mid(n.start, n.end) < lo && hi <= n.end)
    ensures Placed(n, t, maxDepth, position)
  {
    var m := Mid(n.start, n.end);
    var key := Key(position, n.axis);
    assert t[m] == s[m];
    forall i | n.start <= i <= n.end && i != m
      ensures (i < m ==> key(t[i]) <= n.axisValue) && (m < i ==> n.axisValue <= key(t[i]))
    {
      if lo <= i <= hi {
        var j := FromInside(s, t, lo, hi, i);
        assert (i < m <==> j < m) && n.start <= j <= n.end;
      }
    }
  }

  /** Visiting the node of a frame leaves its split: the sorted range is
      split around its median. */
  lemma PlacedVisited(n: KDTreeNode, f: Frame, t: seq<nat>, maxDepth: nat, position: nat -> Position)
    requires 0 <= f.start <= f.end < |t|
    requires SortedRange(t, f.start, f.end, Key(position, n.axis))
    ensures var m := Mid(f.start, f.end);
            Placed(Visit(n, f.start, f.end, Key(position, n.axis)(t[m])), t, maxDepth, position)
  {
    MidInside(f.start, f.end);
  }

  /** The popped slots still hold their splits after one more is visited. */
  lemma StepPlaced(T: seq<KDTreeNode>, s: seq<nat>, t: seq<nat>, maxDepth: nat, position: nat -> Position,
                   done: set<nat>, f: Frame)
    requires DonePlaced(T, s, maxDepth, position, done)
    requires f.node < |T| && f.node !in done && 0 <= f.start <= f.end < |s|
    requires forall k :: k in done && k < |T| ==> Respects(T[k], maxDepth, f)
    requires Resorted(s, t, f.start, f.end, Key(position, T[f.node].axis))
    ensures var v := Key(position, T[f.node].axis)(t[Mid(f.start, f.end)]);
            DonePlaced(T[f.node := Visit(T[f.node], f.start, f.end, v)], t, maxDepth, position, done + {f.node})
  {
    var j := f.node;
    var v := Key(position, T[j].axis)(t[Mid(f.start, f.end)]);
    var T' := T[j := Visit(T[j], f.start, f.end, v)];
    forall k | k in done + {j} && k < |T'|
      ensures Placed(T'[k], t, maxDepth, position)
    {
      if k == j {
        PlacedVisited(T[j], f, t, maxDepth, position);
      } else {
        assert T'[k] == T[k];
        var n := T[k];
        assert Respects(n, maxDepth, f);
        if f.end < n.start || n.end < f.start {
          PlacedApart(n, s, t, f.start, f.end, maxDepth, position);
        } else {
          PlacedWithin(n, s, t, f.start, f.end, maxDepth, position);
        }
      }
    }
  }

  /** The popped slots are the active ones after one more is visited. */
  lemma StepActivity(T: seq<KDTreeNode>, D: seq<KDTreeNode>, done: set<nat>, j: nat, start: int, end: int, v: real)
    requires Activity(T, D, done) && j < |T|
    ensures Activity(T[j := Visit(T[j], start, end, v)], D, done + {j})
  {
  }

  /** The popped slots keep their links after one more is popped from a well-formed frame. */
  lemma StepLinked(T: seq<KDTreeNode>, N: int, maxDepth: nat, done: set<nat>, f: Frame, v: real)
    requires DoneLinked(T, N, maxDepth, done) && FrameWell(T, N, maxDepth, done, f)
    requires forall k :: k in done ==> k < |T|
    ensures DoneLinked(T[f.node := Visit(T[f.node], f.start, f.end, v)], N, maxDepth, done + {f.node})
  {
    var j := f.node;
    var T' := T[j := Visit(T[j], f.start, f.end, v)];
    forall k | k in done + {j} && k < |T'|
      ensures Linked(T', N, maxDepth, k)
    {
      if k != 0 {
        assert Parent(k) in done && Parent(k) != j;
        assert T'[Parent(k)] == T[Parent(k)];
      }
      if k != j {
        assert Linked(T, N, maxDepth, k);
      }
    }
  }

  /** A frame within another respects every node the outer one respects. */
  lemma RespectsWithin(n: KDTreeNode, maxDepth: nat, f: Frame, c: Frame)
    requires Respects(n, maxDepth, f) && f.start <= c.start && c.end <= f.end
    ensures Respects(n, maxDepth, c)
  {
  }

  /** The frames pushed by a visited node lie inside its range, apart from
      each other and from its median. */
  lemma PushedInside(n: KDTreeNode, j: nat, maxDepth: nat)
    requires n.start <= n.end
    ensures forall c :: c in Pushed(n, j, maxDepth) ==> n.start <= c.start <= c.end <= n.end
    ensures forall c :: c in Pushed(n, j, maxDepth) ==> Respects(n, maxDepth, c)
  {
    MidInside(n.start, n.end);
  }

  /** The pending frames stay well formed when the top one is popped and its
      node visited. */
  lemma StepFrames(T: seq<KDTreeNode>, N: int, maxDepth: nat, maxMaxDepth: nat, done: set<nat>, F: seq<Frame>, v: real)
    requires Layout(T) == Plan(maxMaxDepth) && maxDepth <= maxMaxDepth && |F| > 0
    requires FramesWell(T, N, maxDepth, done, F)
    requires forall k {:trigger Parent(k)} :: k in done && k != 0 ==> Parent(k) in done
    requires 0 in done || F == [Frame(0, N - 1, 0)]
    ensures var f := F[|F| - 1];
            var n := Visit(T[f.node], f.start, f.end, v);
            FramesWell(T[f.node := n], N, maxDepth, done + {f.node}, F[..|F| - 1] + Pushed(n, f.node, maxDepth))
  {
    var f := F[|F| - 1];
    var j := f.node;
    var n := Visit(T[j], f.start, f.end, v);
    var T' := T[j := n];
    var rest := F[..|F| - 1];
    var P := Pushed(n, j, maxDepth);
    var F' := rest + P;
    assert FrameWell(T, N, maxDepth, done, f);
    forall i | 0 <= i < |rest|
      ensures FrameWell(T', N, maxDepth, done + {j}, rest[i])
      ensures rest[i].node != 2 * j + 1 && rest[i].node != 2 * j + 2
      ensures rest[i].end < f.start || f.end < rest[i].start
    {
      assert rest[i] == F[i];
      RestFrame(T, N, maxDepth, done, F, i, v);
    }
    PushedFrames(T, N, maxDepth, maxMaxDepth, done, f, v);
    PushedInside(n, j, maxDepth);
  }

  /** A frame below the top stays well formed, and it names neither child of
      the top's node and lies apart from the top's range. */
  lemma RestFrame(T: seq<KDTreeNode>, N: int, maxDepth: nat, done: set<nat>, F: seq<Frame>, i: nat, v: real)
    requires i < |F| - 1 && FramesWell(T, N, maxDepth, done, F)
    requires forall k {:trigger Parent(k)} :: k in done && k != 0 ==> Parent(k) in done
    requires 0 in done || F == [Frame(0, N - 1, 0)]
    ensures var f := F[|F| - 1];
            var T' := T[f.node := Visit(T[f.node], f.start, f.end, v)];
            && FrameWell(T', N, maxDepth, done + {f.node}, F[i])
            && F[i].node != 2 * f.node + 1 && F[i].node != 2 * f.node + 2
            && (F[i].end < f.start || f.end < F[i].start)
  {
    var f := F[|F| - 1];
    var j := f.node;
    var r := F[i];
    assert FrameWell(T, N, maxDepth, done, r) && FrameWell(T, N, maxDepth, done, f);
    assert r.node != j;
    if r.node != 0 {
      assert Parent(r.node) in done && Parent(r.node) != j;
    }
    assert Parent(2 * j + 1) == j && Parent(2 * j + 2) == j;
  }

  /** The frames pushed by the top's node are well formed once it is visited. */
  lemma PushedFrames(T: seq<KDTreeNode>, N: int, maxDepth: nat, maxMaxDepth: nat, done: set<nat>, f: Frame, v: real)
    requires Layout(T) == Plan(maxMaxDepth) && maxDepth <= maxMaxDepth
    requires FrameWell(T, N, maxDepth, done, f)
    requires forall k {:trigger Parent(k)} :: k in done && k != 0 ==> Parent(k) in done
    ensures var n := Visit(T[f.node], f.start, f.end, v);
            forall c :: c in Pushed(n, f.node, maxDepth) ==> FrameWell(T[f.node := n], N, maxDepth, done + {f.node}, c)
  {
    var j := f.node;
    var n := Visit(T[j], f.start, f.end, v);
    var T' := T[j := n];
    if Pushes(n, maxDepth) {
      LayoutSlot(T, maxMaxDepth, j);
      ChildrenInTree(j, maxMaxDepth);
      MidInside(f.start, f.end);
      assert Parent(2 * j + 1) == j && Parent(2 * j + 2) == j;
      assert 2 * j + 1 !in done && 2 * j + 2 !in done;
    }
  }

  /** Every popped node keeps being respected by the pending frames. */
  lemma StepRespect(T: seq<KDTreeNode>, N: int, maxDepth: nat, done: set<nat>, F: seq<Frame>, v: real)
    requires |F| > 0 && FramesRespect(T, maxDepth, done, F) && FramesWell(T, N, maxDepth, done, F)
    ensures var f := F[|F| - 1];
            var n := Visit(T[f.node], f.start, f.end, v);
            FramesRespect(T[f.node := n], maxDepth, done + {f.node}, F[..|F| - 1] + Pushed(n, f.node, maxDepth))
  {
    var f := F[|F| - 1];
    var j := f.node;
    var n := Visit(T[j], f.start, f.end, v);
    var T' := T[j := n];
    var rest := F[..|F| - 1];
    var P := Pushed(n, j, maxDepth);
    var F' := rest + P;
    assert FrameWell(T, N, maxDepth, done, f);
    PushedInside(n, j, maxDepth);
    forall k, i | k in done + {j} && k < |T'| && 0 <= i < |F'|
      ensures Respects(T'[k], maxDepth, F'[i])
    {
      if i < |rest| {
        assert F'[i] == F[i];
        if k == j {
          assert F[i].end < f.start || f.end < F[i].start;
        } else {
          assert T'[k] == T[k];
        }
      } else {
        assert F'[i] in P;
        if k != j {
          assert T'[k] == T[k];
          assert Respects(T[k], maxDepth, f);
          RespectsWithin(T[k], maxDepth, f, F'[i]);
        }
      }
    }
  }

  /** The children of every popped node that pushes stay popped or pending. */
  lemma StepClosure(T: seq<KDTreeNode>, maxDepth: nat, done: set<nat>, F: seq<Frame>, v: real)
    requires |F| > 0 && Closure(T, maxDepth, done, F)
    requires forall k :: k in done ==> k < |T|
    requires F[|F| - 1].node < |T|
    ensures var f := F[|F| - 1];
            var n := Visit(T[f.node], f.start, f.end, v);
            Closure(T[f.node := n], maxDepth, done + {f.node}, F[..|F| - 1] + Pushed(n, f.node, maxDepth))
  {
    var f := F[|F| - 1];
    var j := f.node;
    var n := Visit(T[j], f.start, f.end, v);
    var T' := T[j := n];
    var rest := F[..|F| - 1];
    var P := Pushed(n, j, maxDepth);
    var F' := rest + P;
    assert Nodes(F) == Nodes(rest) + [j];
    assert Nodes(F') == Nodes(rest) + Nodes(P);
    forall k | k in done + {j} && k < |T'| && Pushes(T'[k], maxDepth)
      ensures Reached(done + {j}, F', 2 * k + 1) && Reached(done + {j}, F', 2 * k + 2)
    {
      if k == j {
        assert Nodes(P) == [2 * j + 1, 2 * j + 2];
      } else {
        assert T'[k] == T[k];
        assert Reached(done, F, 2 * k + 1) && Reached(done, F, 2 * k + 2);
      }
    }
  }

  /** The top frame of a state names an unpopped slot with a range inside the vector. */
  lemma TopFrame(T: seq<KDTreeNode>, D: seq<KDTreeNode>, s: seq<nat>, maxDepth: nat,
                 position: nat -> Position, done: set<nat>, F: seq<Frame>)
    requires |F| > 0 && SplitState(T, D, s, maxDepth, position, done, F)
    ensures var f := F[|F| - 1];
            f.node < |T| && f.node !in done && 0 <= f.start <= f.end < |s|
  {
    assert FrameWell(T, |s|, maxDepth, done, F[|F| - 1]);
  }

  /** One iteration of UpdateKDtree's loop keeps its state: the top frame is
      popped, its range sorted into t, its node visited with the median's
      coordinate, and the frames it pushes are pending. */
  lemma RebuildStep(T: seq<KDTreeNode>, D: seq<KDTreeNode>, s: seq<nat>, t: seq<nat>, maxDepth: nat,
                    maxMaxDepth: nat, position: nat -> Position, done: set<nat>, F: seq<Frame>)
    requires Layout(T) == Plan(maxMaxDepth) && maxDepth <= maxMaxDepth && |F| > 0
    requires SplitState(T, D, s, maxDepth, position, done, F)
    requires F[|F| - 1].node < |T| && 0 <= F[|F| - 1].start <= F[|F| - 1].end < |s|
    requires Resorted(s, t, F[|F| - 1].start, F[|F| - 1].end, Key(position, T[F[|F| - 1].node].axis))
    ensures var f := F[|F| - 1];
            var n := Visit(T[f.node], f.start, f.end, Key(position, T[f.node].axis)(t[Mid(f.start, f.end)]));
            SplitState(T[f.node := n], D, t, maxDepth, position, done + {f.node}, F[..|F| - 1] + Pushed(n, f.node, maxDepth))
  {
    var f := F[|F| - 1];
    StepNodes(T, D, s, t, maxDepth, position, done, F);
    StepQueue(T, |s|, maxDepth, maxMaxDepth, done, F, Key(position, T[f.node].axis)(t[Mid(f.start, f.end)]));
  }

  /** Visiting the top frame's node keeps the facts about the popped nodes. */
  lemma StepNodes(T: seq<KDTreeNode>, D: seq<KDTreeNode>, s: seq<nat>, t: seq<nat>, maxDepth: nat,
                  position: nat -> Position, done: set<nat>, F: seq<Frame>)
    requires Activity(T, D, done) && DonePlaced(T, s, maxDepth, position, done) && DoneLinked(T, |s|, maxDepth, done)
    requires |F| > 0 && FramesWell(T, |s|, maxDepth, done, F) && FramesRespect(T, maxDepth, done, F)
    requires Resorted(s, t, F[|F| - 1].start, F[|F| - 1].end, Key(position, T[F[|F| - 1].node].axis))
    ensures var f := F[|F| - 1];
            var n := Visit(T[f.node], f.start, f.end, Key(position, T[f.node].axis)(t[Mid(f.start, f.end)]));
            var T' := T[f.node := n];
            && Activity(T', D, done + {f.node})
            && DonePlaced(T', t, maxDepth, position, done + {f.node})
            && DoneLinked(T', |t|, maxDepth, done + {f.node})
  {
    var f := F[|F| - 1];
    assert FrameWell(T, |s|, maxDepth, done, f);
    forall k | k in done && k < |T|
      ensures Respects(T[k], maxDepth, f)
    {
    }
    var v := Key(position, T[f.node].axis)(t[Mid(f.start, f.end)]);
    StepActivity(T, D, done, f.node, f.start, f.end, v);
    StepPlaced(T, s, t, maxDepth, position, done, f);
    StepLinked(T, |s|, maxDepth, done, f, v);
  }

  /** Popping the top frame and pushing the frames of its node keeps the facts
      about the pending frames. */
  lemma StepQueue(T: seq<KDTreeNode>, N: int, maxDepth: nat, maxMaxDepth: nat, done: set<nat>, F: seq<Frame>, v: real)
    requires Layout(T) == Plan(maxMaxDepth) && maxDepth <= maxMaxDepth && |F| > 0
    requires FramesWell(T, N, maxDepth, done, F) && FramesRespect(T, maxDepth, done, F) && Closure(T, maxDepth, done, F)
    requires forall k :: k in done ==> k < |T|
    requires forall k {:trigger Parent(k)} :: k in done && k != 0 ==> Parent(k) in done
    requires 0 in done || F == [Frame(0, N - 1, 0)]
    ensures var f := F[|F| - 1];
            var n := Visit(T[f.node], f.start, f.end, v);
            var T' := T[f.node := n];
            var F' := F[..|F| - 1] + Pushed(n, f.node, maxDepth);
            && FramesWell(T', N, maxDepth, done + {f.node}, F')
            && FramesRespect(T', maxDepth, done + {f.node}, F')
            && Closure(T', maxDepth, done + {f.node}, F')
            && 0 in done + {f.node}
  {
    assert FrameWell(T, N, maxDepth, done, F[|F| - 1]);
    StepFrames(T, N, maxDepth, maxMaxDepth, done, F, v);
    StepRespect(T, N, maxDepth, done, F, v);
    StepClosure(T, maxDepth, done, F, v);
  }

  /** When no frame is pending the state is the one UpdateKDtree promises. */
  lemma RebuildDone(T: seq<KDTreeNode>, D: seq<KDTreeNode>, s: seq<nat>, maxDepth: nat,
                    position: nat -> Position, done: set<nat>)
    requires SplitState(T, D, s, maxDepth, position, done, [])
    ensures Rebuilt(T, D, s, maxDepth, position)
  {
    assert 0 in done;
    assert Linked(T, |s|, maxDepth, 0);
    forall k | 0 < k < |T|
      ensures T[k].active <==> T[Parent(k)].active && Pushes(T[Parent(k)], maxDepth)
      ensures T[k].active ==> ChildRange(T[Parent(k)], k, T[k].start, T[k].end)
    {
      SlotDone(T, D, |s|, maxDepth, done, k);
    }
  }

  /** With no frame pending, a slot below the root is popped exactly when its
      parent is popped and pushes, and then holds the side of its range. */
  lemma SlotDone(T: seq<KDTreeNode>, D: seq<KDTreeNode>, N: int, maxDepth: nat, done: set<nat>, k: nat)
    requires Activity(T, D, done) && DoneLinked(T, N, maxDepth, done) && Closure(T, maxDepth, done, [])
    requires 0 < k < |T|
    ensures T[k].active <==> T[Parent(k)].active && Pushes(T[Parent(k)], maxDepth)
    ensures T[k].active ==> ChildRange(T[Parent(k)], k, T[k].start, T[k].end)
  {
    var p := Parent(k);
    assert p < |T|;
    if k in done {
      assert p in done;
      assert Linked(T, N, maxDepth, k);
    }
    if p in done && Pushes(T[p], maxDepth) {
      ParentOf(k);
      assert Reached(done, [], 2 * p + 1) && Reached(done, [], 2 * p + 2);
    }
  }
}
