/**
 The two stateless layers `LastTokenSelector` and `AddUniformBase`. Both act
 row by row along the last dimensions; leading batch dimensions are not
 modelled beyond the one batch dimension of `LastTokenSelector`.
 */
module Layers {
  import opened Rows
  import opened Wrappers

  /**
   `x[:, -1]` on a tensor of shape `(batch, steps, features)`: the last time
   step of every batch row. Indexing an empty time dimension raises an
   `IndexError`, modelled as `None`.
   */
  function LastToken(x: seq<seq<seq<real>>>, steps: nat): (r: Option<seq<seq<real>>>)
    requires forall b :: 0 <= b < |x| ==> |x[b]| == steps
    ensures r.None? <==> steps == 0
    ensures r.Some? ==> |r.value| == |x| && forall b :: 0 <= b < |x| ==> r.value[b] == x[b][steps - 1]
  {
    if steps == 0 then None
    else Some(seq(|x|, b requires 0 <= b < |x| => x[b][steps - 1]))
  }

  /** Appending one more step to every row makes that step the selected token. */
  lemma {:induction false} LastTokenOfExtended(x: seq<seq<seq<real>>>, steps: nat, next: seq<seq<real>>)
    requires forall b :: 0 <= b < |x| ==> |x[b]| == steps
    requires |next| == |x|
    ensures var y := seq(|x|, b requires 0 <= b < |x| => x[b] + [next[b]]);
      LastToken(y, steps + 1) == Some(next)
  {
    var y := seq(|x|, b requires 0 <= b < |x| => x[b] + [next[b]]);
    assert LastToken(y, steps + 1).value == next;
  }

  /** `0.99 * x + share` entry by entry. */
  function Blend(x: seq<real>, share: real): (y: seq<real>)
    ensures |y| == |x|
  {
    seq(|x|, i requires 0 <= i < |x| => 0.99 * x[i] + share)
  }

  /** The sum of a blended row: `0.99` times the old sum plus one share per entry. */
  lemma {:induction false} SumBlend(x: seq<real>, share: real)
    ensures Sum(Blend(x, share)) == 0.99 * Sum(x) + Sum(Constant(|x|, share))
  {
    if |x| > 0 {
      var rest := x[1..];
      assert Blend(x, share)[1..] == Blend(rest, share);
      assert Constant(|x|, share)[1..] == Constant(|rest|, share);
      SumBlend(rest, share);
    }
  }

  /** The weight `0.01 * (1 / n)` each category receives from the uniform part. */
  function UniformShare(n: nat): (q: real)
    requires n > 0
  {
    0.01 * (1.0 / (n as real))
  }

  /**
   `0.99 * x + 0.01 * (1.0 / n)` over a row of `n` categories. A row of no
   categories divides by zero and raises, modelled as `None`.
   */
  function AddUniformBase(x: seq<real>): (y: Option<seq<real>>)
    ensures y.None? <==> |x| == 0
    ensures y.Some? ==> |y.value| == |x|
  {
    if |x| == 0 then None else Some(Blend(x, UniformShare(|x|)))
  }

  /** The total mass becomes `0.99` times the old mass plus `0.01`: a distribution stays one. */
  lemma AddUniformBaseSum(x: seq<real>)
    requires |x| > 0
    ensures Sum(AddUniformBase(x).value) == 0.99 * Sum(x) + 0.01
    ensures Sum(x) == 1.0 ==> Sum(AddUniformBase(x).value) == 1.0
  {
    SumBlend(x, UniformShare(|x|));
    SumConstant(|x|, UniformShare(|x|));
    ShareTotal(|x|);
  }

  /** The `n` uniform shares add up to `0.01`. */
  lemma ShareTotal(k: nat)
    requires k > 0
    ensures UniformShare(k) * (k as real) == 0.01
  {
    var n := k as real;
    var r := 1.0 / n;
    assert r * n == 1.0;
    assert (0.01 * r) * n == 0.01 * (r * n);
  }

  /** The uniform distribution over `n` categories. */
  function Uniform(n: nat): (u: seq<real>)
    requires n > 0
    ensures |u| == n
  {
    seq(n, _ => 1.0 / (n as real))
  }

  /** The uniform row of `n` categories is left unchanged. */
  lemma UniformIsFixedPoint(n: nat)
    requires n > 0
    ensures AddUniformBase(Uniform(n)) == Some(Uniform(n))
  {
    var q := 1.0 / (n as real);
    var u := Uniform(n);
    var y := AddUniformBase(u).value;
    assert UniformShare(n) == 0.01 * q;
    forall i | 0 <= i < n ensures y[i] == u[i] {
      assert u[i] == q;
      assert y[i] == 0.99 * q + 0.01 * q;
    }
    assert y == u;
  }

  /** A non-negative row comes out with every category at least `0.01 / n`. */
  lemma AddUniformBaseFloor(x: seq<real>)
    requires |x| > 0
    requires forall i :: 0 <= i < |x| ==> x[i] >= 0.0
    ensures forall i :: 0 <= i < |x| ==> AddUniformBase(x).value[i] >= UniformShare(|x|) > 0.0
  {
    var q := 1.0 / (|x| as real);
    assert q > 0.0;
    assert UniformShare(|x|) == 0.01 * q;
  }
}
