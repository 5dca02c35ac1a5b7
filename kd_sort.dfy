/** Facts about sequences of shape ids ordered by a real-valued key: the
    exchange of two neighbours, sortedness over a range of positions and the
    number of inversions, which bounds the work of an exchange sort. */
module Sorting {

  /** s with the neighbours at i and i + 1 exchanged. */
  function Swap(s: seq<nat>, i: nat): seq<nat>
    requires i + 1 < |s|
  {
    s[i := s[i + 1]][i + 1 := s[i]]
  }

  /** Positions a < b inside lo .. hi (and inside s) hold keys in order. */
  ghost predicate SortedRange(s: seq<nat>, lo: int, hi: int, key: nat -> real)
  {
    forall a, b :: lo <= a < b <= hi && 0 <= a && b < |s| ==> key(s[a]) <= key(s[b])
  }

  /** Neighbours j, j + 1 with lo <= j < hi (and inside s) hold keys in order. */
  ghost predicate AdjacentSorted(s: seq<nat>, lo: int, hi: int, key: nat -> real)
  {
    forall j :: lo <= j < hi && 0 <= j && j + 1 < |s| ==> key(s[j]) <= key(s[j + 1])
  }

  /** The number of elements of t whose key is below x's. */
  function CountBelow(x: nat, t: seq<nat>, key: nat -> real): nat
  {
    if |t| == 0 then 0
    else (if key(t[0]) < key(x) then 1 else 0) + CountBelow(x, t[1..], key)
  }

  /** The number of pairs of positions a < b with key(s[a]) > key(s[b]). */
  function Inversions(s: seq<nat>, key: nat -> real): nat
  {
    if |s| == 0 then 0 else CountBelow(s[0], s[1..], key) + Inversions(s[1..], key)
  }

  /** Neighbours in order give a sorted range. */
  lemma {:induction false} AdjacentToSorted(s: seq<nat>, lo: int, hi: int, key: nat -> real)
    requires AdjacentSorted(s, lo, hi, key)
    ensures SortedRange(s, lo, hi, key)
  {
    forall a, b | lo <= a < b <= hi && 0 <= a && b < |s|
      ensures key(s[a]) <= key(s[b])
    {
      AdjacentChain(s, lo, hi, key, a, b);
    }
  }

  lemma {:induction false} AdjacentChain(s: seq<nat>, lo: int, hi: int, key: nat -> real, a: int, b: int)
    requires AdjacentSorted(s, lo, hi, key)
    requires lo <= a <= b <= hi && 0 <= a && b < |s|
    ensures key(s[a]) <= key(s[b])
    decreases b - a
  {
    if a < b {
      AdjacentChain(s, lo, hi, key, a + 1, b);
      assert key(s[a]) <= key(s[a + 1]);
    }
  }

  /** Exchanging neighbours keeps the elements. */
  lemma SwapMultiset(s: seq<nat>, i: nat)
    requires i + 1 < |s|
    ensures multiset(Swap(s, i)) == multiset(s)
  {
    var t := s[i := s[i + 1]];
    assert multiset(t) == multiset(s) - multiset{s[i]} + multiset{s[i + 1]};
  }

  /** Exchanging neighbours in t keeps the count below any x. */
  lemma {:induction false} CountBelowSwap(x: nat, t: seq<nat>, i: nat, key: nat -> real)
    requires i + 1 < |t|
    ensures CountBelow(x, Swap(t, i), key) == CountBelow(x, t, key)
    decreases i
  {
    var u := Swap(t, i);
    if i == 0 {
      assert u[1..][1..] == t[1..][1..];
      assert u[0] == t[1] && u[1..][0] == t[0] && t[1..][0] == t[1];
    } else {
      assert u[1..] == Swap(t[1..], i - 1);
      CountBelowSwap(x, t[1..], i - 1, key);
    }
  }

  /** Exchanging an inverted pair of neighbours removes exactly one inversion. */
  lemma {:induction false} SwapInversions(s: seq<nat>, i: nat, key: nat -> real)
    requires i + 1 < |s| && key(s[i]) > key(s[i + 1])
    ensures Inversions(Swap(s, i), key) == Inversions(s, key) - 1
    decreases i
  {
    var u := Swap(s, i);
    if i == 0 {
      var r := s[2..];
      assert s[1..] == [s[1]] + r && u[1..] == [s[0]] + r;
      assert u[0] == s[1];
      assert ([s[1]] + r)[1..] == r && ([s[0]] + r)[1..] == r;
      assert CountBelow(s[0], [s[1]] + r, key) == 1 + CountBelow(s[0], r, key);
      assert CountBelow(s[1], [s[0]] + r, key) == CountBelow(s[1], r, key);
    } else {
      assert u[0] == s[0];
      assert u[1..] == Swap(s[1..], i - 1);
      CountBelowSwap(s[0], s[1..], i - 1, key);
      SwapInversions(s[1..], i - 1, key);
    }
  }

  /** The elements of s whose key is x, in their order in s. */
  function KeyRun(s: seq<nat>, key: nat -> real, x: real): seq<nat>
  {
    if |s| == 0 then [] else (if key(s[0]) == x then [s[0]] else []) + KeyRun(s[1..], key, x)
  }

  /** v and w list the elements of every key in the same order: a sort from w
      to v is stable. */
  ghost predicate SameRuns(v: seq<nat>, w: seq<nat>, key: nat -> real)
  {
    forall x :: KeyRun(v, key, x) == KeyRun(w, key, x)
  }

  /** Exchanging neighbours with different keys keeps the order of the
      elements of every key. */
  lemma {:induction false} SwapKeyRun(s: seq<nat>, i: nat, key: nat -> real, x: real)
    requires i + 1 < |s| && key(s[i]) != key(s[i + 1])
    ensures KeyRun(Swap(s, i), key, x) == KeyRun(s, key, x)
    decreases i
  {
    var u := Swap(s, i);
    if i == 0 {
      var r := s[2..];
      assert s[1..][1..] == r && u[1..][1..] == r;
      assert u[0] == s[1] && u[1..][0] == s[0] && s[1..][0] == s[1];
    } else {
      assert u[0] == s[0];
      assert u[1..] == Swap(s[1..], i - 1);
      SwapKeyRun(s[1..], i - 1, key, x);
    }
  }

  /** The elements of a key in a concatenation: those of the first part, then
      those of the second. */
  lemma {:induction false} KeyRunAppend(a: seq<nat>, b: seq<nat>, key: nat -> real, x: real)
    ensures KeyRun(a + b, key, x) == KeyRun(a, key, x) + KeyRun(b, key, x)
    decreases |a|
  {
    if |a| > 0 {
      assert (a + b)[1..] == a[1..] + b;
      KeyRunAppend(a[1..], b, key, x);
    } else {
      assert a + b == b;
    }
  }

  /** A stable rearrangement that keeps the outside of lo .. hi keeps the order
      of the elements of every key inside lo .. hi. */
  lemma RunsInside(v: seq<nat>, w: seq<nat>, lo: int, hi: int, key: nat -> real, x: real)
    requires 0 <= lo <= hi < |v| && SameOutside(v, w, lo, hi) && SameRuns(v, w, key)
    ensures KeyRun(v[lo..hi + 1], key, x) == KeyRun(w[lo..hi + 1], key, x)
  {
    assert v == v[..lo] + v[lo..hi + 1] + v[hi + 1..];
    assert w == w[..lo] + w[lo..hi + 1] + w[hi + 1..];
    assert v[..lo] == w[..lo] && v[hi + 1..] == w[hi + 1..];
    KeyRunAppend(v[..lo] + v[lo..hi + 1], v[hi + 1..], key, x);
    KeyRunAppend(v[..lo], v[lo..hi + 1], key, x);
    KeyRunAppend(w[..lo] + w[lo..hi + 1], w[hi + 1..], key, x);
    KeyRunAppend(w[..lo], w[lo..hi + 1], key, x);
    var P, S := KeyRun(v[..lo], key, x), KeyRun(v[hi + 1..], key, x);
    var A, B := KeyRun(v[lo..hi + 1], key, x), KeyRun(w[lo..hi + 1], key, x);
    assert P + A + S == P + B + S;
    assert A == (P + A + S)[|P|..|P| + |A|];
    assert B == (P + B + S)[|P|..|P| + |B|];
  }

  /** v agrees with w outside positions lo .. hi. */
  ghost predicate SameOutside(v: seq<nat>, w: seq<nat>, lo: int, hi: int)
  {
    |v| == |w| && forall i :: 0 <= i < |v| && (i < lo || hi < i) ==> v[i] == w[i]
  }

  /** Exchanging an inverted pair inside the range keeps the elements and the
      outside and removes one inversion. */
  lemma ExchangeStep(v: seq<nat>, vector: seq<nat>, i: nat, start: int, end: int, key: nat -> real)
    requires start <= i < end && i + 1 < |v| && key(v[i]) > key(v[i + 1])
    requires SameOutside(v, vector, start, end)
    ensures multiset(Swap(v, i)) == multiset(v)
    ensures SameOutside(Swap(v, i), vector, start, end)
    ensures Inversions(Swap(v, i), key) == Inversions(v, key) - 1
    ensures SameRuns(v, vector, key) ==> SameRuns(Swap(v, i), vector, key)
  {
    forall x {
      SwapKeyRun(v, i, key, x);
    }
    SwapInversions(v, i, key);
    SwapMultiset(v, i);
    SwapOutside(v, vector, i, start, end);
  }

  /** Exchanging neighbours inside lo .. hi keeps the outside. */
  lemma SwapOutside(v: seq<nat>, vector: seq<nat>, i: nat, lo: int, hi: int)
    requires lo <= i < hi && i + 1 < |v| && SameOutside(v, vector, lo, hi)
    ensures SameOutside(Swap(v, i), vector, lo, hi)
  {
    var u := Swap(v, i);
    forall j | 0 <= j < |u| && (j < lo || hi < j)
      ensures u[j] == vector[j]
    {
      assert u[j] == v[j];
    }
  }

  /** The elements of s inside lo .. hi: all of them but those before lo and after hi. */
  lemma SliceElements(s: seq<nat>, lo: int, hi: int)
    requires 0 <= lo <= hi < |s|
    ensures multiset(s[lo..hi + 1]) == multiset(s) - multiset(s[..lo]) - multiset(s[hi + 1..])
  {
    assert s == s[..lo] + s[lo..hi + 1] + s[hi + 1..];
  }

  /** A permutation that keeps the outside of lo .. hi keeps the elements inside it. */
  lemma PermutedInside(s: seq<nat>, t: seq<nat>, lo: int, hi: int)
    requires 0 <= lo <= hi < |s|
    requires multiset(t) == multiset(s) && SameOutside(t, s, lo, hi)
    ensures multiset(t[lo..hi + 1]) == multiset(s[lo..hi + 1])
  {
    SliceElements(s, lo, hi);
    SliceElements(t, lo, hi);
    assert s[..lo] == t[..lo] && s[hi + 1..] == t[hi + 1..];
  }

  /** Each element such a permutation places inside lo .. hi came from inside it. */
  lemma FromInside(s: seq<nat>, t: seq<nat>, lo: int, hi: int, i: int) returns (j: int)
    requires 0 <= lo <= hi < |s|
    requires multiset(t) == multiset(s) && SameOutside(t, s, lo, hi)
    requires lo <= i <= hi
    ensures lo <= j <= hi && t[i] == s[j]
  {
    PermutedInside(s, t, lo, hi);
    assert t[lo..hi + 1][i - lo] == t[i];
    assert t[i] in multiset(s[lo..hi + 1]);
    var d :| 0 <= d < hi + 1 - lo && s[lo..hi + 1][d] == t[i];
    j := lo + d;
  }
}
