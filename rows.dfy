/**
 Rows of a tensor as sequences of reals, the total weight of a row (used to
 state that a row is a distribution), and the in-place `scatter_` along
 dimension 1 of a two-dimensional tensor. Reals are exact: floating-point
 rounding is not modelled.
 */
module Rows {

  /** The total weight of a row: the sum of its entries. */
  function Sum(s: seq<real>): (total: real)
  {
    if |s| == 0 then 0.0 else s[0] + Sum(s[1..])
  }

  /** A row of `n` zeros, as `torch.zeros_like` makes it. */
  function Zeros(n: nat): (z: seq<real>)
    ensures |z| == n
    ensures forall i :: 0 <= i < n ==> z[i] == 0.0
  {
    seq(n, _ => 0.0)
  }

  /** The row of `n` copies of `c`. */
  function Constant(n: nat, c: real): (r: seq<real>)
    ensures |r| == n && forall i :: 0 <= i < n ==> r[i] == c
  {
    seq(n, _ => c)
  }

  /** A row of `n` copies of `c` sums to `c * n`. */
  lemma {:induction false} SumConstant(n: nat, c: real)
    ensures Sum(Constant(n, c)) == c * (n as real)
  {
    if n > 0 {
      assert Constant(n, c)[1..] == Constant(n - 1, c);
      SumConstant(n - 1, c);
      Distribute(c, (n - 1) as real, 1.0);
    }
  }

  /** The sum of a concatenation is the sum of the parts. */
  lemma {:induction false} SumConcat(a: seq<real>, b: seq<real>)
    ensures Sum(a + b) == Sum(a) + Sum(b)
  {
    if |a| == 0 {
      assert a + b == b;
    } else {
      assert (a + b)[1..] == a[1..] + b;
      SumConcat(a[1..], b);
    }
  }

  /** Multiplication of reals distributes over addition. */
  lemma Distribute(a: real, x: real, y: real)
    ensures a * (x + y) == a * x + a * y
  {
  }

  /** A row of zeros sums to zero. */
  lemma {:induction false} SumZeros(n: nat)
    ensures Sum(Zeros(n)) == 0.0
  {
    if n > 0 {
      assert Zeros(n)[1..] == Zeros(n - 1);
      SumZeros(n - 1);
    }
  }

  /**
   `t.scatter_(1, index, src)` on a two-dimensional tensor: in row `b` the
   entry at column `index[b]` becomes `src[b]`; every other entry keeps its
   value.
   */
  method Scatter(t: array2<real>, index: seq<nat>, src: seq<real>)
    requires |index| == |src| == t.Length0
    requires forall b :: 0 <= b < |index| ==> index[b] < t.Length1
    modifies t
    ensures forall b, c :: 0 <= b < t.Length0 && 0 <= c < t.Length1 ==>
      t[b, c] == if c == index[b] then src[b] else old(t[b, c])
  {
    for b := 0 to t.Length0
      invariant forall b', c :: 0 <= b' < b && 0 <= c < t.Length1 ==>
        t[b', c] == if c == index[b'] then src[b'] else old(t[b', c])
      invariant forall b', c :: b <= b' < t.Length0 && 0 <= c < t.Length1 ==>
        t[b', c] == old(t[b', c])
    {
      t[b, index[b]] := src[b];
    }
  }
}
