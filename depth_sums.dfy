/** Level sums of complete N-ary trees laid out breadth-first in one vector.
    Every manager sizes its node vector by such a sum and finds the first slot
    of a depth with it. */
module DepthSums {

  /** b raised to the e-th power. */
  function Pow(b: nat, e: nat): nat
  {
    if e == 0 then 1 else b * Pow(b, e - 1)
  }

  /** The number of nodes of depths 0..d of a complete b-ary tree, that is
      the sum of b^i for i = 0..d; an empty sum (0) for a negative depth. */
  function LevelSum(b: nat, d: int): nat
    decreases d
  {
    if d < 0 then 0 else LevelSum(b, d - 1) + Pow(b, d)
  }

  lemma PowPositive(b: nat, e: nat)
    requires b > 0
    ensures Pow(b, e) > 0
  {
  }

  /** The closed form of the geometric sum: (b - 1) * sum + 1 == b^(d+1). */
  lemma {:induction false} LevelSumClosedForm(b: nat, d: int)
    requires d >= -1
    ensures (b - 1) * LevelSum(b, d) + 1 == Pow(b, d + 1)
    decreases d
  {
    if d >= 0 {
      LevelSumClosedForm(b, d - 1);
      calc {
        (b - 1) * LevelSum(b, d) + 1;
        (b - 1) * LevelSum(b, d - 1) + 1 + (b - 1) * Pow(b, d);
        Pow(b, d) + (b - 1) * Pow(b, d);
        b * Pow(b, d);
      }
    }
  }

  /** Adding one more level: the sum up to depth d is b times the sum up to
      depth d - 1, plus the root. This is what makes the first child of the
      node in slot k sit in slot b * k + 1. */
  lemma {:induction false} LevelSumNext(b: nat, d: int)
    requires d >= 0
    ensures LevelSum(b, d) == b * LevelSum(b, d - 1) + 1
    decreases d
  {
    if d > 0 {
      LevelSumNext(b, d - 1);
      calc {
        LevelSum(b, d);
        LevelSum(b, d - 1) + Pow(b, d);
        b * LevelSum(b, d - 2) + 1 + b * Pow(b, d - 1);
        b * (LevelSum(b, d - 2) + Pow(b, d - 1)) + 1;
        b * LevelSum(b, d - 1) + 1;
      }
    }
  }

  /** Level sums grow with the depth. */
  lemma {:induction false} LevelSumMonotone(b: nat, d: int, e: int)
    requires b > 0 && d <= e
    ensures LevelSum(b, d) <= LevelSum(b, e)
    decreases e - d
  {
    if d < e {
      LevelSumMonotone(b, d, e - 1);
      if e >= 0 { PowPositive(b, e); }
    }
  }
}
