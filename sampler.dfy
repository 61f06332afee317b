/**
 The straight-through categorical sampler `STsampleMultiNom`. The draw made
 by `torch.multinomial` is random and is taken here as an input: one drawn
 column per batch row. The forward pass scatters a 1 at the drawn column of
 a fresh zero tensor of the input's shape; the backward pass hands the
 incoming gradient back unchanged.
 */
module StraightThrough {
  import opened Rows

  /** A row of length `n` with 1 at column `i` and 0 elsewhere. */
  function OneHot(n: nat, i: nat): (r: seq<real>)
    requires i < n
    ensures |r| == n
    ensures forall j :: 0 <= j < n ==> (r[j] == 1.0 <==> j == i)
    ensures forall j :: 0 <= j < n && j != i ==> r[j] == 0.0
    ensures Sum(r) == 1.0
  {
    SumConcat(Zeros(i) + [1.0], Zeros(n - i - 1));
    SumConcat(Zeros(i), [1.0]);
    SumZeros(i);
    SumZeros(n - i - 1);
    Zeros(i) + [1.0] + Zeros(n - i - 1)
  }

  /**
   Forward pass: a fresh tensor with the shape of `input` whose row `b` is
   the one-hot row of the drawn column `drawn[b]`.
   */
  method SampleOneHot(input: array2<real>, drawn: seq<nat>) returns (oneHot: array2<real>)
    requires |drawn| == input.Length0
    requires forall b :: 0 <= b < |drawn| ==> drawn[b] < input.Length1
    ensures fresh(oneHot)
    ensures oneHot.Length0 == input.Length0 && oneHot.Length1 == input.Length1
    ensures forall b, c :: 0 <= b < oneHot.Length0 && 0 <= c < oneHot.Length1 ==>
      oneHot[b, c] == OneHot(input.Length1, drawn[b])[c]
  {
    oneHot := new real[input.Length0, input.Length1]((_, _) => 0.0);
    Scatter(oneHot, drawn, seq(|drawn|, _ => 1.0));
  }

  /**
   Backward pass: the gradient with respect to the input probabilities is
   the gradient with respect to the one-hot output, entry by entry, as if
   the draw were the identity.
   */
  function Backward(gradOutput: seq<seq<real>>): (gradInput: seq<seq<real>>)
    ensures |gradInput| == |gradOutput|
    ensures forall b :: 0 <= b < |gradOutput| ==> |gradInput[b]| == |gradOutput[b]|
    ensures forall b, c :: 0 <= b < |gradOutput| && 0 <= c < |gradOutput[b]| ==>
      gradInput[b][c] == gradOutput[b][c]
  {
    gradOutput
  }
}
