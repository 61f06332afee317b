# Numeric helpers of a generative brain model, in Dafny

This project models the discrete and linear parts of the helper module
`GenerativeBrainModel/custom_functions/utils.py`. The module holds numeric
routines for a generative world-model network. The parts modelled here are:

- the straight-through categorical sampler `STsampleMultiNom`: its one-hot
  forward pass and its pass-through backward pass;
- the two-hot target of the exponential-bin regression loss
  `twohot_exp_loss`: the bin count, the clamp, the bracket weights, and the
  scatter into a fresh zero tensor;
- the decoding step of `logits_to_value`: the weighted sum of bin
  probabilities and bin values;
- `least_power_of_2`;
- the layers `LastTokenSelector` and `AddUniformBase`.

Tensor rows are sequences of `real`, so arithmetic is exact. The zero
tensors that the code fills with `scatter_` are fresh `array2<real>` values
written by `Rows.Scatter`. The bins `2^linspace(min_exp, max_exp, num_bins)`
are taken as any strictly increasing row of positive reals with at least two
entries (`TwoHot.ValidBins`). Because `2^x` is strictly increasing, the code's
test `exponents[i] < log2(v)` is the same as `bins[i] < v`. For `v <= 0`
both tests fail for every bin (`log2` gives `-inf` or NaN), so the model
defines the encoding for every `v`, as the code does.

Modules, one per component of the file:

- `Rows` (rows.dfy): the row sum and `scatter_` along dimension 1.
- `StraightThrough` (sampler.dfy): the sampler.
- `LogitsToValue` (expected_value.dfy): the decoding step.
- `TwoHot` (twohot.dfy): the two-hot encoder and the corrected bracket.
- `PowerOfTwo` (power_of_two.dfy): `least_power_of_2`.
- `Layers` (layers.dfy): the two layers.
- `Wrappers` (wrappers.dfy): `Option`, used where the code raises.

What the code does at the edges of the two-hot encoding:

- The comment at utils.py:168 says the code finds the closest bins for each
  target. For a target strictly between two bins other than the last two,
  the code picks the bracket one bin higher (see Findings).
- A target equal to a bin value gets the one-hot row of that bin. For the
  last bin the clamp picks the last bracket, so the 1 is that bracket's
  upper weight (`TwoHot.ExactBinHit`).
- A target that is zero or negative gets the count 0, so the first bracket.
  Its weights are finite, and the encoding is defined for every target.
- Over exact reals, decoding a two-hot row gives back the target exactly,
  for every target (`TwoHot.DecodeTwoHot`).

## Model

| member | source | states |
|---|---|---|
| `Rows.Scatter` | GenerativeBrainModel/custom_functions/utils.py:184-185 | in every row the entry at that row's index becomes that row's source value; every other entry keeps its old value |
| `StraightThrough.OneHot` | GenerativeBrainModel/custom_functions/utils.py:21-22 | the row has the input's length; an entry is 1 exactly at the drawn column and 0 elsewhere; the row sums to 1 |
| `StraightThrough.SampleOneHot` | GenerativeBrainModel/custom_functions/utils.py:13-25 | the output is a fresh tensor of the input's shape, and row `b` is the one-hot row of the drawn column `drawn[b]` |
| `StraightThrough.Backward` | GenerativeBrainModel/custom_functions/utils.py:28-30 | the gradient for the input has the shape of the incoming gradient and equals it entry by entry: the draw is treated as the identity |
| `Rows.Zeros` | GenerativeBrainModel/custom_functions/utils.py:183 | the fresh row, as `zeros_like` makes it, has the requested length and every entry 0 |
| `LogitsToValue.ExpectedValue` | GenerativeBrainModel/custom_functions/utils.py:136 | the weighted sum of one row; a row whose weights are all 0 decodes to 0 |
| `LogitsToValue.PredictedValues` | GenerativeBrainModel/custom_functions/utils.py:136 | one predicted value per batch row, and the value of row `b` is the weighted sum of row `b`'s probabilities and the bin values |
| `LogitsToValue.ExpectedValueOfConstant` | GenerativeBrainModel/custom_functions/utils.py:136 | weighting bins that all have the value `c` gives `c` times the total weight |
| `LogitsToValue.ExpectedValueMonotone` | GenerativeBrainModel/custom_functions/utils.py:136 | with non-negative weights, raising every bin value raises the weighted sum or leaves it equal |
| `LogitsToValue.ExpectedValueOfOneHot` | GenerativeBrainModel/custom_functions/utils.py:136 | a prediction certain of bin `i` decodes to `bins[i]` |
| `LogitsToValue.ExpectedValueBounds` | GenerativeBrainModel/custom_functions/utils.py:136 | with non-negative weights and every bin in `[lo, hi]`, the decoded value lies between `lo` and `hi` times the total weight |
| `LogitsToValue.PredictionWithinBins` | GenerativeBrainModel/custom_functions/utils.py:136 | a probability row over ascending bins decodes to a value between the first and the last bin |
| `TwoHot.CountBelow` | GenerativeBrainModel/custom_functions/utils.py:171 | the count of bins below the target is at most the number of bins |
| `TwoHot.CountBelowSplits` | GenerativeBrainModel/custom_functions/utils.py:171 | over ascending bins, bin `i` lies below `v` exactly when `i` is less than the count |
| `TwoHot.CountAtBin` | GenerativeBrainModel/custom_functions/utils.py:171 | the count at the value of bin `j` is `j` |
| `TwoHot.CountBetweenBins` | GenerativeBrainModel/custom_functions/utils.py:171 | the count of a value strictly between bins `j` and `j + 1` is `j + 1` |
| `TwoHot.Clamp` | GenerativeBrainModel/custom_functions/utils.py:172 | the result lies in `[lo, hi]`; it is the input inside the range, `lo` below it and `hi` above it |
| `TwoHot.BinIndex` | GenerativeBrainModel/custom_functions/utils.py:171-176 | the clamped index `k` is at most `num_bins - 2`, so `k` and `k + 1` both index the bins |
| `TwoHot.BracketWeights` | GenerativeBrainModel/custom_functions/utils.py:175-180 | the two weights sum to 1, and the weighted bracket bins reconstruct `v` exactly, for every `v` |
| `TwoHot.BracketWeightSigns` | GenerativeBrainModel/custom_functions/utils.py:179-180 | the upper weight is negative below the bracket, 0 at its lower bin, 1 at its upper bin and above 1 beyond it |
| `TwoHot.TwoHotAt` | GenerativeBrainModel/custom_functions/utils.py:183-185 | the scattered row has length `num_bins`: the lower weight at `k`, the upper weight at `k + 1`, and 0 elsewhere |
| `TwoHot.TwoHotAtSum` | GenerativeBrainModel/custom_functions/utils.py:183-185 | the scattered row sums to the sum of its two weights |
| `TwoHot.TwoHotAtValue` | GenerativeBrainModel/custom_functions/utils.py:183-185 | the scattered row decodes to the weighted sum of bins `k` and `k + 1` |
| `TwoHot.TwoHotRow` | GenerativeBrainModel/custom_functions/utils.py:170-185 | the two-hot target of one value has length `num_bins` |
| `TwoHot.TwoHotEncode` | GenerativeBrainModel/custom_functions/utils.py:162-185 | the target tensor is fresh, has shape `(batch, num_bins)`, and row `b` is the two-hot target of `values[b]` |
| `TwoHot.TwoHotRowIsNormalised` | GenerativeBrainModel/custom_functions/utils.py:179-185 | the two-hot row is 0 outside columns `k` and `k + 1`, and its entries sum to 1 |
| `TwoHot.DecodeBracket` | GenerativeBrainModel/custom_functions/utils.py:175-185 | on any bracket, decoding the two-hot row of `v` gives `v` exactly |
| `TwoHot.DecodeTwoHot` | GenerativeBrainModel/custom_functions/utils.py:175-185 | decoding the encoder's two-hot row of `v` gives `v` exactly, for every `v` |
| `TwoHot.DecodeEncodeBatch` | GenerativeBrainModel/custom_functions/utils.py:179-185 | decoding a whole encoded batch gives back the batch of values |
| `TwoHot.ExactBinHit` | GenerativeBrainModel/custom_functions/utils.py:171-185 | a value equal to bin `j` gets the one-hot row of `j`, the last bin included |
| `TwoHot.OffByOneBracket` | GenerativeBrainModel/custom_functions/utils.py:171-180 | a value strictly between bins `j` and `j + 1`, with `j + 1` not the last bin, gets `k = j + 1`, a negative upper weight and a lower weight above 1 |
| `TwoHot.LastIntervalInRange` | GenerativeBrainModel/custom_functions/utils.py:171-180 | a value from the second-to-last bin to the last bin gets the last bracket, and both weights lie in `[0, 1]` |
| `TwoHot.OffByOneExample` | GenerativeBrainModel/custom_functions/utils.py:165-185 | with bins 2, 4, 8 the value 3 is encoded as `[0, 1.25, -0.25]`; the intended target is `[0.5, 0.5, 0]` |
| `TwoHot.IntendedBinIndex` | GenerativeBrainModel/custom_functions/utils.py:171-172 | the corrected index, one less than the count and clamped, is at most `num_bins - 2` |
| `TwoHot.IntendedTwoHotRow` | GenerativeBrainModel/custom_functions/utils.py:179-185 | the corrected two-hot target has length `num_bins` |
| `TwoHot.IntendedBracketContains` | GenerativeBrainModel/custom_functions/utils.py:171-176 | a value from the first to the last bin lies inside its corrected bracket |
| `TwoHot.IntendedTwoHotIsDistribution` | GenerativeBrainModel/custom_functions/utils.py:179-185 | for a value from the first to the last bin, the corrected row has every entry in `[0, 1]`, sums to 1 and decodes to the value |
| `TwoHot.IntendedAgreesAtBins` | GenerativeBrainModel/custom_functions/utils.py:171-185 | at every bin value the corrected row and the encoder's row are equal |
| `PowerOfTwo.CeilLog2` | GenerativeBrainModel/custom_functions/utils.py:211 | the exponent is the least one whose power of two reaches the value |
| `PowerOfTwo.LeastPowerOf2` | GenerativeBrainModel/custom_functions/utils.py:207-212 | a non-positive value gives 1; a positive value gives a power of two `p` with `value <= p` and `p / 2 < value` |
| `PowerOfTwo.LeastPowerOf2IsLeast` | GenerativeBrainModel/custom_functions/utils.py:207-212 | no power of two that reaches the value is smaller than the result |
| `PowerOfTwo.PowerOf2FixedPoint` | GenerativeBrainModel/custom_functions/utils.py:211-212 | every power of two maps to itself |
| `PowerOfTwo.LeastPowerOf2Examples` | GenerativeBrainModel/custom_functions/utils.py:207-212 | 1 gives 1, 5 gives 8, 0 gives 1 and 8 gives 8 |
| `Layers.LastToken` | GenerativeBrainModel/custom_functions/utils.py:214-216 | an empty time dimension raises; otherwise there is one row per batch entry, and row `b` is the last time step of `x[b]` |
| `Layers.LastTokenOfExtended` | GenerativeBrainModel/custom_functions/utils.py:216 | after one step is appended to every sequence, the selector returns exactly the appended steps |
| `Layers.AddUniformBase` | GenerativeBrainModel/custom_functions/utils.py:218-220 | a row of no categories raises (division by zero); otherwise the output has the input's length |
| `Layers.SumBlend` | GenerativeBrainModel/custom_functions/utils.py:220 | the blended row sums to `0.99` times the input's sum plus one share per entry |
| `Layers.AddUniformBaseSum` | GenerativeBrainModel/custom_functions/utils.py:220 | the output sums to `0.99` times the input's sum plus `0.01`, so a distribution stays a distribution |
| `Layers.UniformIsFixedPoint` | GenerativeBrainModel/custom_functions/utils.py:220 | the uniform row `1/n` is mapped to itself |
| `Layers.AddUniformBaseFloor` | GenerativeBrainModel/custom_functions/utils.py:220 | every entry of a non-negative input comes out at least `0.01 / n`, which is positive |

## Findings

| source | as written | input that shows it | evidently intended | confidence | as-written member | corrected member |
|---|---|---|---|---|---|---|
| GenerativeBrainModel/custom_functions/utils.py:171-172 | the lower bin `k` of the bracket is the number of bins below the target, clamped to `[0, num_bins - 2]` | `num_bins = 3`, `min_exp = 1`, `max_exp = 3` (bins 2, 4, 8) and target 3: `k = 1`, so the weights are 1.25 on bin 4 and -0.25 on bin 8 | `k` is one less than that count, clamped, so the bracket is bins 2 and 4 with weights 0.5 and 0.5 | high; not executed | `TwoHot.OffByOneBracket` | `TwoHot.IntendedTwoHotIsDistribution` |

The two-hot rows of both brackets sum to 1 and decode back to the target
(`TwoHot.DecodeBracket` holds for any bracket). For a value strictly
between two bins other than the last two, only the corrected bracket gives
weights in `[0, 1]`, that is, a probability row that cross-entropy can use
as a target. The code's bracket also gives weights in `[0, 1]` at every bin
value (`TwoHot.ExactBinHit`) and on the whole last interval
(`TwoHot.LastIntervalInRange`). `TwoHot.TwoHotEncode` models the code as
written. The corrected bracket is `TwoHot.IntendedBinIndex` and
`TwoHot.IntendedTwoHotRow`. The two brackets give the same row at every bin
value (`TwoHot.IntendedAgreesAtBins`).

## Left out

- `symlog`, `symexp` and `symlogMSE` (utils.py:40-44, 109-110): they need
  `log` and `exp`, which exact reals do not have.
- The softmax in `logits_to_value` (utils.py:133), the `F.cross_entropy`
  loss and its batch mean (utils.py:188): they need `exp` and `log`.
  `LogitsToValue` starts from a row of probabilities.
- The bin construction `2.0 ** linspace(min_exp, max_exp, num_bins)`
  (utils.py:129-130, 165-166): non-integer powers. The bins are any strictly
  increasing row of positive reals.
- `kl_divergence_with_free_bits` (utils.py:46-62): it needs `log`. Its
  docstring promises per-batch values clipped at `free_bits`, but the code
  returns the unclipped mean over all entries and ignores `batch_size`.
- `RMSNorm` (utils.py:66-107): the norm needs a square root, the partial size
  comes from a float product, and the parameters are owned and updated by
  the framework's optimizer.
- The random draw of `torch.multinomial` (utils.py:18): the drawn columns are
  an input. That the draw only picks columns of positive weight is the
  library's guarantee, not this code's, and is not stated.
- The autograd and module plumbing: `ctx.save_for_backward`, the unused
  second value `None` returned by `backward`, `nn.Module`, devices, and the
  `unsqueeze`/`squeeze` reshaping (utils.py:125-126, 155-160, 179).
- The width of the logits tensor: the code sizes the two-hot tensor like the
  logits, and the model sizes it by the number of bins, as the loss needs.
- `plot_and_save` (utils.py:196-204): plotting and file output.
- Floating-point rounding everywhere: all arithmetic is exact.
- `PowerOfTwo.LeastPowerOf2`: only integer inputs are modelled, with the
  exact ceiling of the base-2 logarithm. The code's float logarithm can
  overshoot at some exact powers of two, and inputs in `(0, 1)` give
  fractional powers such as 0.5.
- `TwoHot.BinIndex`: fewer than two bins is not modelled. The clamp's upper
  bound would be below its lower bound and the bracket would divide by zero.
- `Layers.AddUniformBase`: one row of the last dimension is modelled. The
  code maps every leading dimension the same way.
