/**
 The two-hot target of `twohot_exp_loss`. The bins are the values
 `2^exponents` with the exponents evenly spaced and ascending; the model
 takes them as a given ascending row of positive reals with at least two
 entries. Because `2^x` is strictly increasing, "exponent `e_i` lies below
 `log2(v)`" is the same test as "bin `b_i` lies below `v`"; for `v <= 0`
 both tests fail for every bin, so the count is 0 either way.

 The encoder counts the bins below the target, clamps the count to
 `[0, num_bins - 2]` and uses it as the index `k` of the lower bin of the
 bracket `bins[k], bins[k + 1]`. When the target lies strictly between two
 bins other than the last two, this picks the bracket one bin too high, and
 the upper weight is negative; `IntendedBinIndex` is the bracket that
 contains the target.
 */
module TwoHot {
  import opened Rows
  import StraightThrough
  import LogitsToValue

  /** The bin values: at least two, positive, strictly increasing. */
  predicate ValidBins(bins: seq<real>)
  {
    && |bins| >= 2
    && bins[0] > 0.0
    && forall i, j :: 0 <= i < j < |bins| ==> bins[i] < bins[j]
  }

  /** Number of bins strictly below `v`: `torch.sum(exponents < log2(v))`. */
  function CountBelow(bins: seq<real>, v: real): (c: nat)
    ensures c <= |bins|
  {
    if |bins| == 0 then 0
    else (if bins[0] < v then 1 else 0) + CountBelow(bins[1..], v)
  }

  /** `torch.clamp(x, lo, hi)`. */
  function Clamp(x: int, lo: int, hi: int): (r: int)
    requires lo <= hi
    ensures lo <= r <= hi
    ensures lo <= x <= hi ==> r == x
    ensures x < lo ==> r == lo
    ensures hi < x ==> r == hi
  {
    if x < lo then lo else if x > hi then hi else x
  }

  /** The index `k` of the lower bin, as the encoder computes it. */
  function BinIndex(bins: seq<real>, v: real): (k: nat)
    requires |bins| >= 2
    ensures k <= |bins| - 2
  {
    Clamp(CountBelow(bins, v), 0, |bins| - 2)
  }

  /** The weights given to the lower and the upper bin of a bracket. */
  datatype Weights = Weights(lower: real, upper: real)

  /**
   Linear interpolation weights of `v` on the bracket `bins[k], bins[k + 1]`.
   They sum to 1 and reconstruct `v` for every `v`.
   */
  function BracketWeights(bins: seq<real>, k: nat, v: real): (w: Weights)
    requires k + 1 < |bins| && bins[k] < bins[k + 1]
    ensures w.lower + w.upper == 1.0
    ensures w.lower * bins[k] + w.upper * bins[k + 1] == v
  {
    var upper := (v - bins[k]) / (bins[k + 1] - bins[k]);
    Interpolation(bins[k], bins[k + 1], v, upper);
    Weights(1.0 - upper, upper)
  }

  /**
   The upper weight is negative below the bracket, 0 at its lower bin, 1 at
   its upper bin and above 1 beyond it; so it lies in `[0, 1]` exactly when
   `v` lies in the bracket.
   */
  lemma BracketWeightSigns(bins: seq<real>, k: nat, v: real)
    requires k + 1 < |bins| && bins[k] < bins[k + 1]
    ensures var u := BracketWeights(bins, k, v).upper;
      && (v < bins[k] <==> u < 0.0)
      && (v == bins[k] <==> u == 0.0)
      && (v == bins[k + 1] <==> u == 1.0)
      && (bins[k + 1] < v <==> u > 1.0)
  {
    Interpolation(bins[k], bins[k + 1], v, BracketWeights(bins, k, v).upper);
  }

  /** The arithmetic of linear interpolation of `v` between `lo < hi` with upper weight `u`. */
  lemma Interpolation(lo: real, hi: real, v: real, u: real)
    requires lo < hi
    requires u == (v - lo) / (hi - lo)
    ensures (1.0 - u) * lo + u * hi == v
    ensures v < lo <==> u < 0.0
    ensures v == lo <==> u == 0.0
    ensures v == hi <==> u == 1.0
    ensures hi < v <==> u > 1.0
  {
    var width := hi - lo;
    DivOrder(v - lo, width, 0.0);
    DivOrder(v - lo, width, 1.0);
    assert u * width == v - lo;
    assert (1.0 - u) * lo + u * hi == lo + u * width;
  }

  /** Comparing a quotient by a positive divisor is comparing the dividend with a multiple. */
  lemma DivOrder(a: real, b: real, c: real)
    requires b > 0.0
    ensures a / b < c <==> a < c * b
    ensures a / b == c <==> a == c * b
  {
    var q := a / b;
    assert q * b == a;
    if q < c {
      assert (c - q) * b > 0.0;
    } else if q > c {
      assert (q - c) * b > 0.0;
    }
  }

  /**
   The row built by scattering `w.lower` at column `k` and `w.upper` at
   column `k + 1` into a zero row of length `n`.
   */
  function TwoHotAt(n: nat, k: nat, w: Weights): (r: seq<real>)
    requires k + 1 < n
    ensures |r| == n
    ensures forall i :: 0 <= i < n ==>
      r[i] == if i == k then w.lower else if i == k + 1 then w.upper else 0.0
  {
    Zeros(k) + [w.lower, w.upper] + Zeros(n - k - 2)
  }

  /** The two-hot target of one value, as the encoder computes it. */
  function TwoHotRow(bins: seq<real>, v: real): (r: seq<real>)
    requires ValidBins(bins)
    ensures |r| == |bins|
  {
    var k := BinIndex(bins, v);
    TwoHotAt(|bins|, k, BracketWeights(bins, k, v))
  }

  /**
   The two-hot targets of a batch of values: a fresh zero tensor of shape
   `(|values|, |bins|)` into which the lower weights are scattered at the
   columns `k` and then the upper weights at the columns `k + 1`.
   */
  method TwoHotEncode(bins: seq<real>, values: seq<real>) returns (t: array2<real>)
    requires ValidBins(bins)
    ensures fresh(t)
    ensures t.Length0 == |values| && t.Length1 == |bins|
    ensures forall b, i :: 0 <= b < |values| && 0 <= i < |bins| ==>
      t[b, i] == TwoHotRow(bins, values[b])[i]
  {
    var n := |bins|;
    var ks := seq(|values|, b requires 0 <= b < |values| => BinIndex(bins, values[b]));
    var ws := seq(|values|, b requires 0 <= b < |values| => BracketWeights(bins, ks[b], values[b]));
    t := new real[|values|, n]((_, _) => 0.0);
    Scatter(t, ks, seq(|values|, b requires 0 <= b < |values| => ws[b].lower));
    Scatter(t, seq(|values|, b requires 0 <= b < |values| => ks[b] + 1),
               seq(|values|, b requires 0 <= b < |values| => ws[b].upper));
  }

  // ----- The count splits the ascending bins -----

  /** Over ascending bins, the bins below `v` are exactly the first `CountBelow` ones. */
  lemma {:induction false} CountBelowSplits(bins: seq<real>, v: real)
    requires forall i, j :: 0 <= i < j < |bins| ==> bins[i] <= bins[j]
    ensures forall i :: 0 <= i < |bins| ==> (bins[i] < v <==> i < CountBelow(bins, v))
  {
    if |bins| > 0 {
      var rest := bins[1..];
      CountBelowSplits(rest, v);
      forall i | 0 <= i < |bins| ensures bins[i] < v <==> i < CountBelow(bins, v) {
        if i > 0 {
          assert bins[i] == rest[i - 1];
        } else if !(bins[0] < v) && |rest| > 0 {
          assert bins[0] <= rest[0];
        }
      }
    }
  }

  /** The count at a bin value is that bin's index. */
  lemma CountAtBin(bins: seq<real>, j: nat)
    requires ValidBins(bins) && j < |bins|
    ensures CountBelow(bins, bins[j]) == j
  {
    CountBelowSplits(bins, bins[j]);
    var c := CountBelow(bins, bins[j]);
    assert !(bins[j] < bins[j]);
    assert c <= j;
    assert !(bins[c] < bins[j]);
  }

  /** The count of a value strictly between bins `j` and `j + 1` is `j + 1`. */
  lemma CountBetweenBins(bins: seq<real>, j: nat, v: real)
    requires ValidBins(bins) && j + 1 < |bins|
    requires bins[j] < v < bins[j + 1]
    ensures CountBelow(bins, v) == j + 1
  {
    CountBelowSplits(bins, v);
    assert bins[j] < v;
    assert !(bins[j + 1] < v);
  }

  // ----- Properties of the two-hot row -----

  /** A scattered bracket sums to the sum of its two weights. */
  lemma TwoHotAtSum(n: nat, k: nat, w: Weights)
    requires k + 1 < n
    ensures Sum(TwoHotAt(n, k, w)) == w.lower + w.upper
  {
    var pair := [w.lower, w.upper];
    assert TwoHotAt(n, k, w) == Zeros(k) + pair + Zeros(n - k - 2);
    SumConcat(Zeros(k) + pair, Zeros(n - k - 2));
    SumConcat(Zeros(k), pair);
    SumZeros(k);
    SumZeros(n - k - 2);
    assert pair[1..] == [w.upper];
    assert Sum([w.upper]) == w.upper + Sum([]);
  }

  /** A scattered bracket decodes to the interpolation of its two bins. */
  lemma TwoHotAtValue(n: nat, k: nat, w: Weights, bins: seq<real>)
    requires k + 1 < n && |bins| == n
    ensures LogitsToValue.ExpectedValue(TwoHotAt(n, k, w), bins) == w.lower * bins[k] + w.upper * bins[k + 1]
  {
    var front, hot := bins[..k] + [bins[k], bins[k + 1]], Zeros(k) + [w.lower, w.upper];
    assert LogitsToValue.ExpectedValue(hot, front) == w.lower * bins[k] + w.upper * bins[k + 1] by {
      ZerosThenPair(w, bins[..k], bins[k], bins[k + 1]);
    }
    assert LogitsToValue.ExpectedValue(TwoHotAt(n, k, w), bins) == LogitsToValue.ExpectedValue(hot, front) by {
      assert TwoHotAt(n, k, w) == hot + Zeros(n - k - 2);
      assert bins == front + bins[k + 2..];
      PadWithZeros(hot, front, bins[k + 2..]);
    }
  }

  /** Zeros followed by two weights decode to the weighted sum of the two last bins. */
  lemma ZerosThenPair(w: Weights, left: seq<real>, lo: real, hi: real)
    ensures LogitsToValue.ExpectedValue(Zeros(|left|) + [w.lower, w.upper], left + [lo, hi])
      == w.lower * lo + w.upper * hi
  {
    PairValue(w, lo, hi);
    LogitsToValue.ExpectedValueConcat(Zeros(|left|), [w.lower, w.upper], left, [lo, hi]);
    LogitsToValue.ExpectedValueZeros(|left|, left);
  }

  /** Two weights decode to the weighted sum of their two bins. */
  lemma PairValue(w: Weights, lo: real, hi: real)
    ensures LogitsToValue.ExpectedValue([w.lower, w.upper], [lo, hi]) == w.lower * lo + w.upper * hi
  {
    assert [w.lower, w.upper][1..] == [w.upper] && [lo, hi][1..] == [hi];
    assert LogitsToValue.ExpectedValue([w.upper], [hi]) == w.upper * hi + LogitsToValue.ExpectedValue([], []);
  }

  /** Trailing zero weights do not change the weighted sum. */
  lemma PadWithZeros(p: seq<real>, a: seq<real>, b: seq<real>)
    requires |p| == |a|
    ensures LogitsToValue.ExpectedValue(p + Zeros(|b|), a + b) == LogitsToValue.ExpectedValue(p, a)
  {
    LogitsToValue.ExpectedValueConcat(p, Zeros(|b|), a, b);
    LogitsToValue.ExpectedValueZeros(|b|, b);
  }

  /**
   The two-hot row of any value has length `num_bins`, is zero outside the
   columns `k` and `k + 1`, and its entries sum to 1.
   */
  lemma TwoHotRowIsNormalised(bins: seq<real>, v: real)
    requires ValidBins(bins)
    ensures var k := BinIndex(bins, v);
      && |TwoHotRow(bins, v)| == |bins|
      && (forall i :: 0 <= i < |bins| && i != k && i != k + 1 ==> TwoHotRow(bins, v)[i] == 0.0)
      && Sum(TwoHotRow(bins, v)) == 1.0
  {
    var k := BinIndex(bins, v);
    TwoHotAtSum(|bins|, k, BracketWeights(bins, k, v));
  }

  /** Whatever the bracket, decoding its two-hot row gives back `v` exactly. */
  lemma DecodeBracket(bins: seq<real>, k: nat, v: real)
    requires k + 1 < |bins| && bins[k] < bins[k + 1]
    ensures LogitsToValue.ExpectedValue(TwoHotAt(|bins|, k, BracketWeights(bins, k, v)), bins) == v
  {
    var w := BracketWeights(bins, k, v);
    var e := w.lower * bins[k] + w.upper * bins[k + 1];
    assert e == v;
    TwoHotAtValue(|bins|, k, w, bins);
    assert LogitsToValue.ExpectedValue(TwoHotAt(|bins|, k, w), bins) == e;
  }

  /** Decoding the two-hot row of `v` gives back `v` exactly, whatever `v` is. */
  lemma DecodeTwoHot(bins: seq<real>, v: real)
    requires ValidBins(bins)
    ensures LogitsToValue.ExpectedValue(TwoHotRow(bins, v), bins) == v
  {
    DecodeBracket(bins, BinIndex(bins, v), v);
  }

  /** Decoding the encoded batch gives back the batch of values. */
  lemma DecodeEncodeBatch(bins: seq<real>, values: seq<real>)
    requires ValidBins(bins)
    ensures LogitsToValue.PredictedValues(
      seq(|values|, b requires 0 <= b < |values| => TwoHotRow(bins, values[b])), bins) == values
  {
    var rows := seq(|values|, b requires 0 <= b < |values| => TwoHotRow(bins, values[b]));
    forall b | 0 <= b < |values|
      ensures LogitsToValue.PredictedValues(rows, bins)[b] == values[b]
    {
      DecodeTwoHot(bins, values[b]);
    }
  }

  /**
   A value equal to a bin value puts the whole mass 1 on that bin, the last
   bin included: there the clamp picks the last bracket and the upper
   weight is 1.
   */
  lemma ExactBinHit(bins: seq<real>, j: nat)
    requires ValidBins(bins) && j < |bins|
    ensures TwoHotRow(bins, bins[j]) == StraightThrough.OneHot(|bins|, j)
  {
    CountAtBin(bins, j);
    BracketWeightSigns(bins, BinIndex(bins, bins[j]), bins[j]);
    var row, hot := TwoHotRow(bins, bins[j]), StraightThrough.OneHot(|bins|, j);
    assert forall i :: 0 <= i < |bins| ==> row[i] == hot[i];
  }

  /**
   A value strictly between bins `j` and `j + 1`, with `j + 1` not the last
   bin, gets the bracket `j + 1, j + 2`: one bin too high, so the upper
   weight is negative and the lower weight exceeds 1.
   */
  lemma OffByOneBracket(bins: seq<real>, j: nat, v: real)
    requires ValidBins(bins) && j + 2 < |bins|
    requires bins[j] < v < bins[j + 1]
    ensures BinIndex(bins, v) == j + 1
    ensures BracketWeights(bins, j + 1, v).upper < 0.0
    ensures BracketWeights(bins, j + 1, v).lower > 1.0
  {
    CountBetweenBins(bins, j, v);
    BracketWeightSigns(bins, j + 1, v);
  }

  /**
   On the last interval, from the second-to-last bin to the last, the clamp
   picks the last bracket, so there the encoder's weights do lie in `[0, 1]`.
   */
  lemma LastIntervalInRange(bins: seq<real>, v: real)
    requires ValidBins(bins)
    requires bins[|bins| - 2] <= v <= bins[|bins| - 1]
    ensures BinIndex(bins, v) == |bins| - 2
    ensures 0.0 <= BracketWeights(bins, |bins| - 2, v).lower <= 1.0
    ensures 0.0 <= BracketWeights(bins, |bins| - 2, v).upper <= 1.0
  {
    var n := |bins|;
    CountBelowSplits(bins, v);
    if n > 2 {
      assert bins[n - 3] < v;
    }
    BracketWeightSigns(bins, n - 2, v);
  }

  /**
   With exponents `linspace(1, 3, 3)`, bins `[2, 4, 8]`, the
   target 3 is encoded as `[0, 1.25, -0.25]`; the intended target is
   `[0.5, 0.5, 0]`.
   */
  lemma OffByOneExample()
    ensures ValidBins([2.0, 4.0, 8.0])
    ensures TwoHotRow([2.0, 4.0, 8.0], 3.0) == [0.0, 1.25, -0.25]
    ensures IntendedTwoHotRow([2.0, 4.0, 8.0], 3.0) == [0.5, 0.5, 0.0]
  {
    var bins := [2.0, 4.0, 8.0];
    CountBetweenBins(bins, 0, 3.0);
    assert BinIndex(bins, 3.0) == 1;
    assert IntendedBinIndex(bins, 3.0) == 0;
    var row, fixed := TwoHotRow(bins, 3.0), IntendedTwoHotRow(bins, 3.0);
    assert row[0] == 0.0 && row[1] == 1.25 && row[2] == -0.25;
    assert fixed[0] == 0.5 && fixed[1] == 0.5 && fixed[2] == 0.0;
  }

  // ----- The intended bracket -----

  /** The lower bin of the bracket that contains `v`: one less than the count, clamped. */
  function IntendedBinIndex(bins: seq<real>, v: real): (k: nat)
    requires |bins| >= 2
    ensures k <= |bins| - 2
  {
    Clamp(CountBelow(bins, v) - 1, 0, |bins| - 2)
  }

  /** The two-hot target of one value on the bracket that contains it. */
  function IntendedTwoHotRow(bins: seq<real>, v: real): (r: seq<real>)
    requires ValidBins(bins)
    ensures |r| == |bins|
  {
    var k := IntendedBinIndex(bins, v);
    TwoHotAt(|bins|, k, BracketWeights(bins, k, v))
  }

  /** Every value from the first to the last bin lies in its intended bracket. */
  lemma IntendedBracketContains(bins: seq<real>, v: real)
    requires ValidBins(bins)
    requires bins[0] <= v <= bins[|bins| - 1]
    ensures var k := IntendedBinIndex(bins, v); bins[k] <= v <= bins[k + 1]
  {
    CountBelowSplits(bins, v);
    var n, c := |bins|, CountBelow(bins, v);
    var k := IntendedBinIndex(bins, v);
    assert !(bins[n - 1] < v);
    if c == 0 {
      assert !(bins[0] < v);
    } else {
      assert bins[c - 1] < v && !(bins[c] < v);
    }
  }

  /**
   On the intended bracket, a value from the first to the last bin gets a
   two-hot row that is a probability row: entries in `[0, 1]` summing to 1,
   which decodes back to the value.
   */
  lemma IntendedTwoHotIsDistribution(bins: seq<real>, v: real)
    requires ValidBins(bins)
    requires bins[0] <= v <= bins[|bins| - 1]
    ensures forall i :: 0 <= i < |bins| ==> 0.0 <= IntendedTwoHotRow(bins, v)[i] <= 1.0
    ensures Sum(IntendedTwoHotRow(bins, v)) == 1.0
    ensures LogitsToValue.ExpectedValue(IntendedTwoHotRow(bins, v), bins) == v
  {
    var k := IntendedBinIndex(bins, v);
    var w := BracketWeights(bins, k, v);
    var row := IntendedTwoHotRow(bins, v);
    assert row == TwoHotAt(|bins|, k, w);
    IntendedBracketContains(bins, v);
    BracketWeightSigns(bins, k, v);
    assert 0.0 <= w.lower <= 1.0 && 0.0 <= w.upper <= 1.0;
    forall i | 0 <= i < |bins| ensures 0.0 <= row[i] <= 1.0 {
      assert row[i] == if i == k then w.lower else if i == k + 1 then w.upper else 0.0;
    }
    TwoHotAtSum(|bins|, k, w);
    DecodeBracket(bins, k, v);
  }

  /** At every bin value the encoder and the intended bracket agree. */
  lemma IntendedAgreesAtBins(bins: seq<real>, j: nat)
    requires ValidBins(bins) && j < |bins|
    ensures IntendedTwoHotRow(bins, bins[j]) == TwoHotRow(bins, bins[j])
  {
    CountAtBin(bins, j);
    ExactBinHit(bins, j);
    BracketWeightSigns(bins, IntendedBinIndex(bins, bins[j]), bins[j]);
    var row, hot := IntendedTwoHotRow(bins, bins[j]), StraightThrough.OneHot(|bins|, j);
    assert forall i :: 0 <= i < |bins| ==> row[i] == hot[i];
  }
}
