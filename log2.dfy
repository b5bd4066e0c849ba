/** The integer logarithm helper `log2` of the accelerator test code. */
module IntLog {

  function Pow2(k: nat): (p: nat)
    ensures p >= 1
  {
    if k == 0 then 1 else 2 * Pow2(k - 1)
  }

  /** Powers of two are strictly increasing, so an exponent is determined by
      its power. */
  lemma {:induction false} Pow2Increasing(i: nat, j: nat)
    requires i < j
    ensures Pow2(i) < Pow2(j)
  {
    if i + 1 < j {
      Pow2Increasing(i, j - 1);
    }
  }

  /** Halving y (rounding down) and doubling p keeps p * y within one p. */
  lemma HalvingStep(p: nat, y: nat)
    ensures 2 * p * (y / 2) <= p * y
    ensures p * (y + 1) <= 2 * p * (y / 2 + 1)
  {
    var h, r := y / 2, y % 2;
    assert y == 2 * h + r;
    assert p * y == 2 * p * h + p * r;
    assert p * (y + 1) == 2 * p * h + p * (r + 1);
    assert 2 * p * (h + 1) == 2 * p * h + 2 * p;
  }

  /** log2: halve x (x >> 1) until it reaches 1, counting the halvings.
      For x == 0 the loop never ends, so x >= 1 is required. The result is
      the floor of the base-2 logarithm, and the exponent itself for a power
      of two. */
  method Log2(x: nat) returns (res: nat)
    requires x >= 1
    ensures Pow2(res) <= x < Pow2(res + 1)
    ensures forall k: nat :: Pow2(k) == x ==> res == k
  {
    var y := x;
    res := 0;
    while y != 1
      invariant y >= 1
      invariant Pow2(res) * y <= x < Pow2(res) * (y + 1)
      decreases y
    {
      HalvingStep(Pow2(res), y);
      y := y / 2;
      res := res + 1;
    }
    forall k: nat | Pow2(k) == x
      ensures res == k
    {
      if k < res {
        Pow2Increasing(k, res);
      } else if res + 1 < k {
        Pow2Increasing(res + 1, k);
      }
    }
  }
}
