/** The invariant of the construction loop of the K-D tree manager, which pops
    node records from an explicit stack, stores them and pushes their children. */
module KDBuild {
  import opened DepthSums
  import opened KDNodes

  /** The stack of InitKDTree as the fresh records of a sequence of slots. */
  function FreshAll(slots: seq<nat>): seq<KDTreeNode>
  {
    seq(|slots|, i requires 0 <= i < |slots| => Fresh(slots[i]))
  }

  /** A slot already popped: its fresh record, with the child links of those of
      its children that have been popped too. */
  function Patched(k: nat, done: set<nat>): KDTreeNode
  {
    Fresh(k).(left := if 2 * k + 1 in done then 2 * k + 1 else -1,
              right := if 2 * k + 2 in done then 2 * k + 2 else -1)
  }

  /** Popped slots hold their patched records. */
  ghost predicate PoppedStored(T: seq<KDTreeNode>, done: set<nat>)
  {
    && (forall k :: k in done ==> k < |T|)
    && (forall k {:trigger Patched(k, done)} :: k in done ==> T[k] == Patched(k, done))
  }

  /** The pending slots are distinct slots of the tree not popped yet. */
  ghost predicate PendingFresh(size: nat, done: set<nat>, pending: seq<nat>)
  {
    && (forall i :: 0 <= i < |pending| ==> pending[i] < size && pending[i] !in done)
    && (forall i, j :: 0 <= i < j < |pending| ==> pending[i] != pending[j])
  }

  /** Every popped or pending node but the root has a popped parent. */
  ghost predicate ParentsPopped(done: set<nat>, pending: seq<nat>)
  {
    && (forall k {:trigger Parent(k)} :: k in done && k != 0 ==> Parent(k) in done)
    && (forall i :: 0 <= i < |pending| && pending[i] > 0 ==> Parent(pending[i]) in done)
  }

  /** The children of a popped node above the last level are popped or pending. */
  ghost predicate ChildrenReached(maxDepth: nat, done: set<nat>, pending: seq<nat>)
  {
    forall k {:trigger DepthOf(k)} :: k in done && DepthOf(k) < maxDepth ==>
      && (2 * k + 1 in done || 2 * k + 1 in pending)
      && (2 * k + 2 in done || 2 * k + 2 in pending)
  }

  /** The state of InitKDTree's loop, the stack holding the fresh records of
      the pending slots. */
  ghost predicate BuildState(T: seq<KDTreeNode>, maxDepth: nat, done: set<nat>, pending: seq<nat>)
  {
    && PoppedStored(T, done)
    && PendingFresh(|T|, done, pending)
    && ParentsPopped(done, pending)
    && ChildrenReached(maxDepth, done, pending)
  }

  /** The vector after popping the fresh record of slot k: the record is stored
      and the child link of its parent is set on the side it hangs from. */
  function AfterPop(T: seq<KDTreeNode>, k: nat): seq<KDTreeNode>
    requires k < |T| && Parent(k) < |T|
  {
    var T1 := T[k := Fresh(k)];
    if k == 0 then T1
    else if k % 2 == 1 then T1[Parent(k) := T1[Parent(k)].(left := k)]
    else T1[Parent(k) := T1[Parent(k)].(right := k)]
  }

  /** The slots pushed for a popped slot: its two children, left first, unless
      it lies on the last level. */
  function Kids(k: nat, maxDepth: nat): seq<nat>
  {
    if DepthOf(k) < maxDepth then [2 * k + 1, 2 * k + 2] else []
  }

  lemma FreshAllConcat(a: seq<nat>, b: seq<nat>)
    ensures FreshAll(a + b) == FreshAll(a) + FreshAll(b)
  {
  }

  /** The stack after pushing the children of slot k, if any. */
  lemma PushedRecords(rest: seq<nat>, k: nat, maxDepth: nat)
    ensures FreshAll(rest + Kids(k, maxDepth))
            == FreshAll(rest) + if DepthOf(k) < maxDepth then [ChildRecord(Fresh(k), Left), ChildRecord(Fresh(k), Right)] else []
  {
    FreshAllConcat(rest, Kids(k, maxDepth));
    FreshKids(k);
    if DepthOf(k) < maxDepth {
      assert FreshAll([2 * k + 1, 2 * k + 2]) == [Fresh(2 * k + 1), Fresh(2 * k + 2)];
    } else {
      assert FreshAll([]) == [];
    }
  }

  /** Popping stores the fresh record and links it into its parent. */
  lemma StepPopped(T: seq<KDTreeNode>, done: set<nat>, k: nat)
    requires k < |T| && k !in done && PoppedStored(T, done)
    requires k != 0 ==> Parent(k) in done
    requires 2 * k + 1 !in done && 2 * k + 2 !in done
    ensures PoppedStored(AfterPop(T, k), done + {k})
  {
    var done' := done + {k};
    forall j | j in done'
      ensures AfterPop(T, k)[j] == Patched(j, done')
    {
      if j == k {
        PoppedSlot(T, done, k);
      } else if k != 0 && j == Parent(k) {
        PoppedParent(T, done, k);
      } else {
        PoppedOther(T, done, k, j);
      }
    }
  }

  /** The popped slot holds its fresh record, with no child linked yet. */
  lemma PoppedSlot(T: seq<KDTreeNode>, done: set<nat>, k: nat)
    requires k < |T| && Parent(k) < |T|
    requires 2 * k + 1 !in done && 2 * k + 2 !in done
    ensures AfterPop(T, k)[k] == Patched(k, done + {k})
  {
    FreshBlank(k);
    assert AfterPop(T, k)[k] == Fresh(k) by {
      assert k != 0 ==> Parent(k) != k;
    }
  }

  /** The parent of the popped slot gains the link to it. */
  lemma PoppedParent(T: seq<KDTreeNode>, done: set<nat>, k: nat)
    requires k < |T| && k != 0 && k !in done
    requires Parent(k) in done && Parent(k) < |T| && T[Parent(k)] == Patched(Parent(k), done)
    ensures AfterPop(T, k)[Parent(k)] == Patched(Parent(k), done + {k})
  {
    var j := Parent(k);
    ParentOf(k);
    assert j != k;
    if k % 2 == 1 {
      assert AfterPop(T, k)[j] == T[j].(left := k);
    } else {
      assert AfterPop(T, k)[j] == T[j].(right := k);
    }
  }

  /** Every other popped slot keeps its record. */
  lemma PoppedOther(T: seq<KDTreeNode>, done: set<nat>, k: nat, j: nat)
    requires k < |T| && Parent(k) < |T| && j < |T|
    requires j != k && (k != 0 ==> j != Parent(k))
    requires T[j] == Patched(j, done)
    ensures AfterPop(T, k)[j] == Patched(j, done + {k})
  {
    assert AfterPop(T, k)[j] == T[j];
    assert 2 * j + 1 != k && 2 * j + 2 != k;
  }

  /** Popping keeps the pending slots distinct and unpopped. */
  lemma StepPending(maxDepth: nat, done: set<nat>, pending: seq<nat>)
    requires |pending| > 0
    requires PendingFresh(LevelSum(2, maxDepth), done, pending) && ParentsPopped(done, pending)
    ensures var k := pending[|pending| - 1];
            PendingFresh(LevelSum(2, maxDepth), done + {k}, pending[..|pending| - 1] + Kids(k, maxDepth))
  {
    var n := |pending| - 1;
    var k := pending[n];
    ChildrenInTree(k, maxDepth);
    assert Parent(2 * k + 1) == k && Parent(2 * k + 2) == k;
    var rest := pending[..n];
    forall i | 0 <= i < |rest|
      ensures rest[i] != 2 * k + 1 && rest[i] != 2 * k + 2
    {
      assert rest[i] == pending[i];
    }
  }

  /** Popping keeps every parent popped. */
  lemma StepParents(maxDepth: nat, done: set<nat>, pending: seq<nat>)
    requires |pending| > 0
    requires ParentsPopped(done, pending)
    ensures var k := pending[|pending| - 1];
            ParentsPopped(done + {k}, pending[..|pending| - 1] + Kids(k, maxDepth))
  {
    var k := pending[|pending| - 1];
    assert Parent(2 * k + 1) == k && Parent(2 * k + 2) == k;
    assert k != 0 ==> Parent(k) in done;
  }

  /** Popping keeps the children of popped nodes reached. */
  lemma StepChildren(maxDepth: nat, done: set<nat>, pending: seq<nat>)
    requires |pending| > 0
    requires ChildrenReached(maxDepth, done, pending)
    ensures var k := pending[|pending| - 1];
            ChildrenReached(maxDepth, done + {k}, pending[..|pending| - 1] + Kids(k, maxDepth))
  {
    var n := |pending| - 1;
    var k := pending[n];
    var pending' := pending[..n] + Kids(k, maxDepth);
    forall x | x in pending
      ensures x == k || x in pending'
    {
      var i :| 0 <= i < |pending| && pending[i] == x;
      if i < n {
        assert pending'[i] == x;
      }
    }
    if DepthOf(k) < maxDepth {
      assert pending'[n] == 2 * k + 1 && pending'[n + 1] == 2 * k + 2;
    }
  }

  /** One iteration of InitKDTree's loop keeps its state. */
  lemma BuildStep(T: seq<KDTreeNode>, maxDepth: nat, done: set<nat>, pending: seq<nat>)
    requires |T| == LevelSum(2, maxDepth) && |pending| > 0
    requires BuildState(T, maxDepth, done, pending)
    ensures var k := pending[|pending| - 1];
            && k < |T| && k !in done && Parent(k) < |T|
            && (DepthOf(k) < maxDepth ==> 2 * k + 2 < |T|)
            && BuildState(AfterPop(T, k), maxDepth, done + {k}, pending[..|pending| - 1] + Kids(k, maxDepth))
  {
    var k := pending[|pending| - 1];
    ChildrenInTree(k, maxDepth);
    assert Parent(2 * k + 1) == k && Parent(2 * k + 2) == k;
    StepPopped(T, done, k);
    StepPending(maxDepth, done, pending);
    StepParents(maxDepth, done, pending);
    StepChildren(maxDepth, done, pending);
  }

  /** When the stack is empty and the root has been popped, every slot has
      been, and the vector is the one the construction promises. */
  lemma BuildDone(T: seq<KDTreeNode>, maxDepth: nat, done: set<nat>)
    requires |T| == LevelSum(2, maxDepth) && 0 in done
    requires BuildState(T, maxDepth, done, [])
    ensures T == Plan(maxDepth)
  {
    forall k | 0 <= k < |T|
      ensures T[k] == Built(k, maxDepth)
    {
      SlotBuilt(T, maxDepth, done, k);
    }
  }

  /** One slot of the finished vector holds its planned record. */
  lemma SlotBuilt(T: seq<KDTreeNode>, maxDepth: nat, done: set<nat>, k: nat)
    requires |T| == LevelSum(2, maxDepth) && 0 in done
    requires BuildState(T, maxDepth, done, [])
    requires k < |T|
    ensures T[k] == Built(k, maxDepth)
  {
    ChildrenInTree(k, maxDepth);
    AllPopped(T, maxDepth, done, k);
    assert T[k] == Patched(k, done);
    if DepthOf(k) < maxDepth {
      AllPopped(T, maxDepth, done, 2 * k + 1);
      AllPopped(T, maxDepth, done, 2 * k + 2);
    } else {
      assert 2 * k + 1 !in done && 2 * k + 2 !in done;
    }
  }

  /** Every slot of the tree is popped once the stack is empty and the root is. */
  lemma {:induction false} AllPopped(T: seq<KDTreeNode>, maxDepth: nat, done: set<nat>, k: nat)
    requires |T| == LevelSum(2, maxDepth) && 0 in done
    requires BuildState(T, maxDepth, done, [])
    requires k < |T|
    ensures k in done
    decreases k
  {
    if k > 0 {
      var p := Parent(k);
      assert p in done by {
        AllPopped(T, maxDepth, done, p);
      }
      ChildrenInTree(k, maxDepth);
      assert DepthOf(k) == DepthOf(p) + 1;
      assert k == 2 * p + 1 || k == 2 * p + 2;
    }
  }

  /** The slots not popped yet. */
  ghost function Pending(done: set<nat>, size: nat): set<nat>
  {
    set k: nat | k < size && k !in done
  }

  /** Popping an unpopped slot shrinks the set of slots not popped yet. */
  lemma PendingShrinks(done: set<nat>, size: nat, k: nat)
    requires k < size && k !in done
    ensures Pending(done + {k}, size) < Pending(done, size)
  {
    assert k in Pending(done, size);
  }

  /** The loop starts with the root pending and nothing popped. */
  lemma BuildStart(T: seq<KDTreeNode>, maxDepth: nat)
    requires |T| == LevelSum(2, maxDepth)
    ensures BuildState(T, maxDepth, {}, [0])
  {
    assert LevelSum(2, maxDepth) > 0 by {
      LevelSumNext(2, maxDepth);
    }
  }

  /** The top of the stack is the fresh record of the last pending slot. */
  lemma FreshAllPop(pending: seq<nat>)
    requires |pending| > 0
    ensures var s := FreshAll(pending);
            && s[|s| - 1] == Fresh(pending[|pending| - 1])
            && s[..|s| - 1] == FreshAll(pending[..|pending| - 1])
  {
  }
}
