/**
 The decoding step of `logits_to_value`: the expected bin value of a row of
 bin probabilities, `torch.sum(probs * bins, dim=1)`. The softmax that turns
 logits into probabilities is not part of this model.
 */
module LogitsToValue {
  import opened Rows
  import StraightThrough

  /** Every weight of the row is zero. */
  predicate AllZero(s: seq<real>)
  {
    |s| == 0 || (s[0] == 0.0 && AllZero(s[1..]))
  }

  /**
   The weighted sum of the bin values, one weight per bin. Bins of weight 0
   contribute nothing, so a row of zero weights decodes to 0.
   */
  function ExpectedValue(probs: seq<real>, bins: seq<real>): (e: real)
    requires |probs| == |bins|
    ensures AllZero(probs) ==> e == 0.0
  {
    if |probs| == 0 then 0.0 else probs[0] * bins[0] + ExpectedValue(probs[1..], bins[1..])
  }

  /** The predicted value of every batch row. */
  function PredictedValues(probs: seq<seq<real>>, bins: seq<real>): (r: seq<real>)
    requires forall b :: 0 <= b < |probs| ==> |probs[b]| == |bins|
    ensures |r| == |probs|
    ensures forall b :: 0 <= b < |probs| ==> r[b] == ExpectedValue(probs[b], bins)
  {
    seq(|probs|, b requires 0 <= b < |probs| => ExpectedValue(probs[b], bins))
  }

  /** The weighted sum splits over concatenated rows. */
  lemma {:induction false} ExpectedValueConcat(p: seq<real>, q: seq<real>, a: seq<real>, b: seq<real>)
    requires |p| == |a| && |q| == |b|
    ensures ExpectedValue(p + q, a + b) == ExpectedValue(p, a) + ExpectedValue(q, b)
  {
    if |p| == 0 {
      assert p + q == q && a + b == b;
    } else {
      assert (p + q)[1..] == p[1..] + q;
      assert (a + b)[1..] == a[1..] + b;
      ExpectedValueConcat(p[1..], q, a[1..], b);
    }
  }

  /** The row of `n` zeros has every weight zero. */
  lemma {:induction false} ZerosAreAllZero(n: nat)
    ensures AllZero(Zeros(n))
  {
    if n > 0 {
      assert Zeros(n)[1..] == Zeros(n - 1);
      ZerosAreAllZero(n - 1);
    }
  }

  /** A zero row contributes nothing. */
  lemma ExpectedValueZeros(n: nat, bins: seq<real>)
    requires |bins| == n
    ensures ExpectedValue(Zeros(n), bins) == 0.0
  {
    ZerosAreAllZero(n);
  }

  /** A certain prediction of bin `i` decodes to the value of bin `i`. */
  lemma {:induction false} ExpectedValueOfOneHot(bins: seq<real>, i: nat)
    requires i < |bins|
    ensures ExpectedValue(StraightThrough.OneHot(|bins|, i), bins) == bins[i]
  {
    var n := |bins|;
    var hot := StraightThrough.OneHot(n, i);
    if i == 0 {
      assert hot[1..] == Zeros(n - 1);
      ExpectedValueZeros(n - 1, bins[1..]);
      assert hot[0] * bins[0] == bins[0];
    } else {
      assert hot[1..] == StraightThrough.OneHot(n - 1, i - 1);
      ExpectedValueOfOneHot(bins[1..], i - 1);
      assert hot[0] * bins[0] == 0.0;
    }
  }

  /** Weighting a constant row gives that constant times the total weight. */
  lemma {:induction false} ExpectedValueOfConstant(probs: seq<real>, c: real)
    ensures ExpectedValue(probs, Constant(|probs|, c)) == c * Sum(probs)
  {
    if |probs| > 0 {
      var rest := probs[1..];
      assert Constant(|probs|, c)[1..] == Constant(|rest|, c);
      ExpectedValueOfConstant(rest, c);
      Distribute(c, probs[0], Sum(rest));
    }
  }

  /** With non-negative weights, raising the bin values entry by entry raises the weighted sum. */
  lemma {:induction false} ExpectedValueMonotone(probs: seq<real>, a: seq<real>, b: seq<real>)
    requires |probs| == |a| == |b|
    requires forall i :: 0 <= i < |probs| ==> probs[i] >= 0.0
    requires forall i :: 0 <= i < |a| ==> a[i] <= b[i]
    ensures ExpectedValue(probs, a) <= ExpectedValue(probs, b)
  {
    if |probs| > 0 {
      var ta, tb := ExpectedValue(probs[1..], a[1..]), ExpectedValue(probs[1..], b[1..]);
      ExpectedValueMonotone(probs[1..], a[1..], b[1..]);
      WeightOrder(probs[0], a[0], b[0], ta, tb, ExpectedValue(probs, a), ExpectedValue(probs, b));
    } else {
      assert |a| == 0;
    }
  }

  /**
   Adding the same non-negative weight `p` on `x <= y` to two ordered sums
   `ta <= tb` keeps them ordered.
   */
  lemma WeightOrder(p: real, x: real, y: real, ta: real, tb: real, ea: real, eb: real)
    requires p >= 0.0 && x <= y && ta <= tb
    requires ea == p * x + ta && eb == p * y + tb
    ensures ea <= eb
  {
    assert p * (y - x) >= 0.0;
  }

  /**
   With non-negative weights and every bin value in `[lo, hi]`, the weighted
   sum lies between `lo` and `hi` times the total weight.
   */
  lemma ExpectedValueBounds(probs: seq<real>, bins: seq<real>, lo: real, hi: real)
    requires |probs| == |bins|
    requires forall i :: 0 <= i < |probs| ==> probs[i] >= 0.0
    requires forall i :: 0 <= i < |bins| ==> lo <= bins[i] <= hi
    ensures lo * Sum(probs) <= ExpectedValue(probs, bins) <= hi * Sum(probs)
  {
    var n := |probs|;
    ExpectedValueMonotone(probs, Constant(n, lo), bins);
    ExpectedValueMonotone(probs, bins, Constant(n, hi));
    ExpectedValueOfConstant(probs, lo);
    ExpectedValueOfConstant(probs, hi);
  }

  /**
   The predicted value of a probability row over ascending bins lies between
   the smallest and the largest bin value.
   */
  lemma PredictionWithinBins(probs: seq<real>, bins: seq<real>)
    requires |probs| == |bins| > 0
    requires forall i, j :: 0 <= i < j < |bins| ==> bins[i] <= bins[j]
    requires forall i :: 0 <= i < |probs| ==> probs[i] >= 0.0
    requires Sum(probs) == 1.0
    ensures bins[0] <= ExpectedValue(probs, bins) <= bins[|bins| - 1]
  {
    forall i | 0 <= i < |bins| ensures bins[0] <= bins[i] <= bins[|bins| - 1] {
      if 0 < i < |bins| - 1 {
        assert bins[0] <= bins[i] && bins[i] <= bins[|bins| - 1];
      }
    }
    ExpectedValueBounds(probs, bins, bins[0], bins[|bins| - 1]);
  }
}
