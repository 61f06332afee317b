/**
 `least_power_of_2`: the smallest power of two at least the value, and 1 for
 a value that is not positive. The source takes the ceiling of the
 floating-point base-2 logarithm; this model states the intended exact
 semantics on integers, with the ceiling of the logarithm computed by
 halving (rounding up) until 1 is reached.
 */
module PowerOfTwo {

  /** `2 ** e`. */
  function Pow2(e: nat): (r: nat)
    ensures r >= 1
  {
    if e == 0 then 1 else 2 * Pow2(e - 1)
  }

  ghost predicate IsPowerOf2(p: int)
  {
    exists e: nat :: Pow2(e) == p
  }

  /** Powers of two grow strictly with the exponent. */
  lemma {:induction false} Pow2Increasing(a: nat, b: nat)
    requires a < b
    ensures Pow2(a) < Pow2(b)
  {
    if a + 1 < b {
      Pow2Increasing(a, b - 1);
    }
  }

  /**
   `ceil(log2(value))` for a positive integer: the least exponent whose
   power of two reaches the value.
   */
  function CeilLog2(value: int): (e: nat)
    requires value >= 1
    ensures value <= Pow2(e)
    ensures e > 0 ==> Pow2(e - 1) < value
    decreases value
  {
    if value == 1 then 0 else 1 + CeilLog2((value + 1) / 2)
  }

  /** The result of `least_power_of_2(value)`. */
  function LeastPowerOf2(value: int): (p: nat)
    ensures value <= 0 ==> p == 1
    ensures value >= 1 ==> IsPowerOf2(p) && value <= p && p / 2 < value
  {
    if value <= 0 then 1
    else
      var e := CeilLog2(value);
      assert Pow2(e) / 2 < value by {
        if e > 0 {
          assert Pow2(e) / 2 == Pow2(e - 1);
        }
      }
      Pow2(e)
  }

  /** No power of two that reaches the value is smaller than the result. */
  lemma LeastPowerOf2IsLeast(value: int, e: nat)
    requires value <= Pow2(e)
    ensures LeastPowerOf2(value) <= Pow2(e)
  {
    if value >= 1 {
      var c := CeilLog2(value);
      if c > e {
        Pow2Increasing(e, c - 1);
      } else if c < e {
        Pow2Increasing(c, e);
      }
    }
  }

  /** Every power of two maps to itself. */
  lemma PowerOf2FixedPoint(e: nat)
    ensures LeastPowerOf2(Pow2(e)) == Pow2(e)
  {
    LeastPowerOf2IsLeast(Pow2(e), e);
  }

  /** The sample points 1, 5, 0 and 8. */
  lemma LeastPowerOf2Examples()
    ensures LeastPowerOf2(1) == 1
    ensures LeastPowerOf2(5) == 8
    ensures LeastPowerOf2(0) == 1
    ensures LeastPowerOf2(8) == 8
  {
  }
}
