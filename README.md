# FaceDetector core, modelled in Dafny

FaceDetector is a Java head detector. It works in three stages:

1. It describes a 128 by 128 image by its histogram of oriented gradients (HOG).
2. It trains a support vector machine on such descriptors with Platt's SMO algorithm.
3. It slides a 128-pixel window over an image at five scales. It merges nearby positive windows and crops every merged detection.

This project models that pipeline over exact `real` arithmetic and proves what each stage promises.

| file | module | models |
|---|---|---|
| `numerics.dfy` | `Numerics` | Java `Math` helpers, the transcendental functions as constrained parameters, an outcome type for the exceptions |
| `kernels.dfy` | `Kernels` | the linear and RBF kernels shared by the solver and the classifier |
| `hog_spec.dfy` | `HogSpec` | what each HOG stage computes, as functions on values, with the lemmas about them |
| `hog.dfy` | `Hog` | class `HogExtractor`: the stages as methods over arrays, each proved against `HogSpec` |
| `smo_spec.dfy` | `SmoSpec` | the decision value `f`, the cached errors and one pair step of SMO, with its invariants |
| `smo.dfy` | `Smo` | class `SmoTrainer`: `train` and `selectJ` updating `alphas`, `b` and the error cache in place |
| `classifier.dfy` | `Classifier` | class `SvmClassifier`: support-vector filtering, `decisionFunction`, `predict` |
| `clustering.dfy` | `Clustering` | `clusterDetections`: greedy seed-based merging of rectangles with a `visited` array |
| `detector.dfy` | `Detector` | window enumeration over the scales, mapping back to the original image, the crop clamp |
| `training.dfy` | `Training` | `normalizeFeatures`, `isImageFile` and the sample and label order of `loadTrainingData` |

The transcendental functions `sqrt`, `exp`, `hypot` and `toDegrees(atan2(..))` are the fields of a `Transcendentals` value. A predicate lists the only facts about them that the proofs use:

- `sqrt` squares back;
- `exp` is positive and `exp(0) == 1`;
- `hypot` is the non-negative root of the sum of squares;
- the angle lies in [-180, 180].

The OpenCV classifier that scores a window is a function parameter `score(scale, x, y)`.

## Model

| member | source | states |
|---|---|---|
| `Numerics.ClampInt` | src/Hog/HogExtractor.java:138-140 | `min(max(v, lo), hi)` lies in `[lo, hi]` and is `v` itself when `v` already does |
| `Numerics.MaxInt` | src/Utils/SVMTester.java:161-162 | `Math.max` is an upper bound of both arguments and equals one of them |
| `Numerics.MinInt` | src/Utils/SVMTester.java:163-164 | `Math.min` is a lower bound of both arguments and equals one of them |
| `Numerics.Abs` | src/SVM/SMOTrainer.java:108 | `Math.abs` is non-negative and is `v` or `-v` |
| `Numerics.SqrtLessIff` | src/Utils/SVMTester.java:113-115 | for a positive bound, `sqrt(v) < bound` exactly when `v < bound * bound` |
| `Numerics.SqrtZeroIff` | src/Hog/HogExtractor.java:216 | a square root is zero exactly at zero, and positive for a positive argument |
| `Kernels.ComputeKernel` | src/SVM/SMOTrainer.java:46-62 | the accumulator loops compute the dot product (linear) or `exp(-gamma * squared distance)` (RBF) |
| `Kernels.KernelSymmetric` | src/SVM/SVMClassifier.java:64-80 | both kernels are symmetric in their two vectors |
| `Kernels.RbfSelf` | src/SVM/SVMClassifier.java:71-77 | the RBF kernel of a vector with itself is `exp(0)`, which is 1 |
| `Kernels.LinearEta` | src/SVM/SMOTrainer.java:102 | with the linear kernel `eta == -squared distance(X[i], X[j]) <= 0` |
| `Kernels.SqDistNonneg` | src/SVM/SMOTrainer.java:54-58 | the squared distance is non-negative |
| `Kernels.SqDistSelf` | src/SVM/SMOTrainer.java:54-58 | the squared distance of a vector to itself is zero |
| `Kernels.DotSymmetric` | src/SVM/SMOTrainer.java:48-51 | the dot product is symmetric |
| `HogSpec.Luma` | src/Hog/HogExtractor.java:89 | the grey value of a colour pixel lies in [0, 255] |
| `HogSpec.GammaChannel` | src/Hog/HogExtractor.java:73-75 | `(int)(255 * sqrt(c / 255))` of a channel is again a channel value in [0, 255] |
| `HogSpec.GammaPixel` | src/Hog/HogExtractor.java:72-76 | gamma correction maps a colour to a colour |
| `HogSpec.WeightSumIsSixteen` | src/Hog/HogExtractor.java:99-116 | `weightSum` is always 16 |
| `HogSpec.BlurOfConstant` | src/Hog/HogExtractor.java:105-117 | blurring a constant image gives the same constant at every interior pixel |
| `HogSpec.SobelWeightsCancel` | src/Hog/HogExtractor.java:130-131 | both Sobel kernels sum to zero |
| `HogSpec.GradientOfConstant` | src/Hog/HogExtractor.java:133-148 | on a constant image both clamped Sobel sums are 0 at every pixel, borders included |
| `HogSpec.HypotOfZero` | src/Hog/HogExtractor.java:150 | `hypot(0, 0) == 0` |
| `HogSpec.FoldAngle` | src/Hog/HogExtractor.java:151-153 | a folded angle lies in [0, 180], and it is 180 exactly when `atan2` gave 180 |
| `HogSpec.BinPositionRange` | src/Hog/HogExtractor.java:166-180 | `angle / binWidth` lies in [0, bins], and it equals `bins` exactly at 180 degrees |
| `HogSpec.SoftBin` | src/Hog/HogExtractor.java:180-184 | `binLow` and `binHigh` lie in [0, bins) with `binHigh == (binLow + 1) % bins`, and the weights sum to 1; below 180 degrees both weights lie in [0, 1] and `binLow <= bin < binLow + 1` |
| `HogSpec.SoftBinAt180` | src/Hog/HogExtractor.java:180-184 | at exactly 180 degrees `binLow == 0`, `weightHigh == bins` and `weightLow == 1 - bins` |
| `HogSpec.SharesSplit` | src/Hog/HogExtractor.java:183-187 | the two shares of a vote add up to the magnitude |
| `HogSpec.DepositTotal` | src/Hog/HogExtractor.java:180-187 | one pixel's vote raises the histogram total by exactly its magnitude |
| `HogSpec.DepositNonNegative` | src/Hog/HogExtractor.java:180-187 | a vote with an angle in [0, 180) keeps a non-negative histogram non-negative |
| `HogSpec.DepositAt180Negative` | src/Hog/HogExtractor.java:180-187 | with 2 or more bins, a vote at 180 degrees makes bin 0 negative and puts `bins` times the magnitude into bin 1 |
| `HogSpec.CellFits` | src/Hog/HogExtractor.java:168-175 | every pixel of a cell with `cy < height / cellSize` lies inside the image, so the guard of line 175 never fires |
| `HogSpec.AllCellsFit` | src/Hog/HogExtractor.java:162-175 | every cell of the `cellsY` by `cellsX` grid lies inside the gradient planes |
| `HogSpec.RowVotesTotal` | src/Hog/HogExtractor.java:171-187 | the votes of a pixel row raise the histogram total by the row's total magnitude |
| `HogSpec.CellHistogramTotal` | src/Hog/HogExtractor.java:170-189 | a cell histogram's total is the total gradient magnitude of the cell's pixels |
| `HogSpec.CellHistogramNonNegative` | src/Hog/HogExtractor.java:170-189 | with no orientation at 180 degrees and non-negative magnitudes, every cell histogram is non-negative |
| `HogSpec.CellGrid` | src/Hog/HogExtractor.java:165-191 | `cellHistograms` has `height / cellSize` rows of `width / cellSize` histograms of `bins` entries |
| `HogSpec.BlockLayout` | src/Hog/HogExtractor.java:205-212 | slot `(dy * blockSize + dx) * bins + k` of a block is bin `k` of cell `[by + dy][bx + dx]` |
| `HogSpec.RowMajorLayout` | src/Hog/HogExtractor.java:200-233 | in a row-major concatenation, entry `i` of chunk `(y, x)` sits at `(y * width + x) * p + i` |
| `HogSpec.ConcatLength` | src/Hog/HogExtractor.java:232-233 | a row-major concatenation of `rows * width` chunks of length `p` has `rows * width * p` entries |
| `HogSpec.L2NormPositive` | src/Hog/HogExtractor.java:216 | `sqrt(norm + 1e-6)` is positive, so the divisions of lines 219 and 228 are defined |
| `HogSpec.L2NormSquare` | src/Hog/HogExtractor.java:216 | the norm squares back to the sum of squares plus `1e-6` |
| `HogSpec.Clip` | src/Hog/HogExtractor.java:220 | under L2-Hys a clipped entry is at most 0.2; without it the entry is unchanged |
| `HogSpec.DivideAndClip` | src/Hog/HogExtractor.java:218-221 | the first pass keeps the length; under L2-Hys every entry is at most 0.2, otherwise it is plain division |
| `HogSpec.L2PassBelowOne` | src/Hog/HogExtractor.java:214-219 | after one L2 pass the sum of squares is `S / (S + 1e-6)`, which is below 1 |
| `HogSpec.NormalizedBelowOne` | src/Hog/HogExtractor.java:214-230 | in both modes a normalised block has a sum of squares below 1 |
| `HogSpec.ClippedBeforeRenormalisation` | src/Hog/HogExtractor.java:218-221 | under L2-Hys every entry is at most 0.2 before renormalisation |
| `HogSpec.NormalizedNonNegative` | src/Hog/HogExtractor.java:214-230 | normalisation keeps a non-negative block non-negative |
| `HogSpec.Blocks` | src/Hog/HogExtractor.java:200-230 | `blocksY` rows of `blocksX` blocks, block `(by, bx)` being the normalised cells of the block at `(by, bx)` |
| `HogSpec.DescriptorSize` | src/Hog/HogExtractor.java:193-197 | the descriptor has `blocksX * blocksY * blockSize * blockSize * bins` entries |
| `HogSpec.DescriptorLayout` | src/Hog/HogExtractor.java:200-233 | entry `i` of block `(by, bx)` sits at `(by * blocksX + bx) * blockHistogramSize + i` of the descriptor |
| `HogSpec.DefaultDescriptorLength` | src/Hog/HogExtractor.java:193-197 | with 8-pixel cells, 2 by 2 blocks and 9 bins on a 128 by 128 image the descriptor has 8100 entries |
| `Hog.GradientRanges` | src/Hog/HogExtractor.java:150-153 | the gradient planes hold non-negative magnitudes and angles in [0, 180] |
| `Hog.ConstantImageHasNoEdges` | src/Hog/HogExtractor.java:130-150 | a constant grey image has gradient magnitude 0 at every pixel |
| `Hog.HogExtractor.constructor` | src/Hog/HogExtractor.java:9-20 | the default geometry: 8-pixel cells, 2 by 2-cell blocks, 9 bins, all three options on |
| `Hog.HogExtractor.WithGeometry` | src/Hog/HogExtractor.java:22-26 | the given geometry with all three options on |
| `Hog.HogExtractor.SetGammaCorrection` | src/Hog/HogExtractor.java:28-30 | sets `gammaCorrection`; nothing else changes |
| `Hog.HogExtractor.SetUseGaussianBlur` | src/Hog/HogExtractor.java:32-34 | sets `useGaussianBlur`; nothing else changes |
| `Hog.HogExtractor.SetUseL2Hys` | src/Hog/HogExtractor.java:36-38 | sets `useL2Hys`; nothing else changes |
| `Hog.HogExtractor.ApplyGammaCorrection` | src/Hog/HogExtractor.java:66-80 | a new image of the same size whose every pixel is the gamma-corrected colour of the input pixel |
| `Hog.HogExtractor.GammaRow` | src/Hog/HogExtractor.java:71-77 | corrects row `y` and leaves every other row alone |
| `Hog.HogExtractor.ConvertToGrayscale` | src/Hog/HogExtractor.java:82-93 | a new plane of the same size holding `0.299 R + 0.587 G + 0.114 B` at every pixel |
| `Hog.HogExtractor.BlurPixel` | src/Hog/HogExtractor.java:107-117 | the 1-2-1 weighted 3 by 3 sum at an interior pixel divided by the weight total |
| `Hog.HogExtractor.ApplyGaussianBlur` | src/Hog/HogExtractor.java:95-121 | a new plane of the same size: 0 on the one-pixel border, the blurred value inside |
| `Hog.HogExtractor.SobelRow` | src/Hog/HogExtractor.java:138-144 | adds kernel row `ky`, sampled at clamped indices, to both running sums |
| `Hog.HogExtractor.SobelPixel` | src/Hog/HogExtractor.java:135-148 | both clamped Sobel sums at a pixel, divided by 8 |
| `Hog.HogExtractor.GradientRow` | src/Hog/HogExtractor.java:134-154 | fills row `y` of both planes with `hypot` and the folded angle; other rows are unchanged |
| `Hog.HogExtractor.ComputeGradients` | src/Hog/HogExtractor.java:123-156 | two new planes holding the magnitude and folded angle of the Sobel gradient at every pixel |
| `Hog.HogExtractor.VotePixel` | src/Hog/HogExtractor.java:177-187 | the cell's histogram receives the pixel's two-bin vote; every other cell is unchanged |
| `Hog.HogExtractor.AddToBin` | src/Hog/HogExtractor.java:186-187 | one `+=` into bin `k` of one cell; every other cell is unchanged |
| `Hog.HogExtractor.AccumulateRow` | src/Hog/HogExtractor.java:171-188 | the cell's histogram receives the votes of one pixel row, left to right |
| `Hog.HogExtractor.AccumulateCell` | src/Hog/HogExtractor.java:170-189 | a zeroed cell ends up holding its histogram; every other cell is unchanged |
| `Hog.HogExtractor.FillCellRow` | src/Hog/HogExtractor.java:169-190 | a zeroed cell row ends up holding the histograms of that row; other rows are unchanged |
| `Hog.HogExtractor.CellHistograms` | src/Hog/HogExtractor.java:162-191 | a new `cellsY` by `cellsX` by `bins` array holding the histogram of every cell |
| `Hog.HogExtractor.BuildBlock` | src/Hog/HogExtractor.java:202-212 | a new block holding the cells of the block, `block[index++] = val` in `(dy, dx, k)` order |
| `Hog.HogExtractor.SquaredNorm` | src/Hog/HogExtractor.java:214-215 | the sum of squares of the block |
| `Hog.HogExtractor.DivideBlock` | src/Hog/HogExtractor.java:218-221 | every entry divided by the norm, then clipped when L2-Hys is on |
| `Hog.HogExtractor.NormalizeBlock` | src/Hog/HogExtractor.java:214-230 | the block becomes its L2 or L2-Hys normalisation |
| `Hog.HogExtractor.ArrayCopy` | src/Hog/HogExtractor.java:232 | `System.arraycopy` writes the block at `vectorIndex` and leaves every other slot alone |
| `Hog.HogExtractor.PlaceBlock` | src/Hog/HogExtractor.java:202-233 | the normalised block lands at `at`; every other slot is unchanged |
| `Hog.HogExtractor.PlaceRow` | src/Hog/HogExtractor.java:201-234 | after block row `by`, `vectorIndex` counts all blocks of rows up to `by` and every slot before it holds the descriptor's entry |
| `Hog.HogExtractor.AssembleBlocks` | src/Hog/HogExtractor.java:200-235 | every slot of `hogVector` is written, in block row-major order, and the vector equals the concatenated blocks |
| `Hog.HogExtractor.FillDescriptor` | src/Hog/HogExtractor.java:193-235 | `hogVector` becomes the descriptor of the cell grid |
| `Hog.HogExtractor.ComputeHogDescriptor` | src/Hog/HogExtractor.java:158-238 | fails with a negative array size exactly when the length `blocksX * blocksY * blockSize^2 * bins` is negative; otherwise returns a vector of that length that is the descriptor, or all zeros when a block count is negative |
| `Hog.HogExtractor.Preprocess` | src/Hog/HogExtractor.java:43-51 | optional gamma correction, then grey values, then the optional blur |
| `Hog.HogExtractor.ExtractHog` | src/Hog/HogExtractor.java:40-56 | the gradient planes and descriptor of the preprocessed image; with the default geometry the result is 8100 entries long |
| `SmoSpec.MarginUpdate` | src/SVM/SMOTrainer.java:64-72 | moving one non-negative multiplier to another non-negative value shifts `f(x)` by the change times `y[i] * kernel(X[i], x)`; the `alphas[i] > 0` filter drops only zero terms |
| `SmoSpec.EligibleIffNotKkt` | src/SVM/SMOTrainer.java:84-85 | inside the box, sample `i` is attempted exactly when it violates the KKT conditions up to `tol` |
| `SmoSpec.BoundsInBox` | src/SVM/SMOTrainer.java:92-99 | inside the box, `0 <= L <= H <= C` |
| `SmoSpec.ClipAlpha` | src/SVM/SMOTrainer.java:106 | the clipped value lies in `[L, H]` and is unchanged when already inside |
| `SmoSpec.PairedAlphaInBox` | src/SVM/SMOTrainer.java:110 | for a new `alphas[j]` in `[L, H]`, the new `alphas[i]` lies in `[0, C]` and `y[i] * alphas[i] + y[j] * alphas[j]` keeps its value |
| `SmoSpec.StepInvariants` | src/SVM/SMOTrainer.java:93-123 | a skip happens only when `L == H` or `eta >= 0`; an abandoned step moves `alphas[j]` within `[L, H]` by less than `eps`; an update keeps both multipliers in the box and the weighted sum unchanged |
| `SmoSpec.LinearStepSkipsCoincident` | src/SVM/SMOTrainer.java:100-103 | with the linear kernel a pair of identical vectors is always skipped |
| `SmoSpec.PairBiasCancels` | src/SVM/SMOTrainer.java:112-115 | `b1` and `b2` absorb the shift of the decision value caused by the pair update |
| `SmoSpec.PairUpdateMargin` | src/SVM/SMOTrainer.java:110-115 | updating both multipliers shifts the margin by the two weighted changes |
| `SmoSpec.PairBiasZeroesMargin` | src/SVM/SMOTrainer.java:112-115 | with the bias computed from a sample's error, that sample's new error is zero |
| `SmoSpec.PairBiasClearsError` | src/SVM/SMOTrainer.java:112-115 | the same for a cached error `Error(k)` |
| `SmoSpec.BiasClearsErrors` | src/SVM/SMOTrainer.java:112-123 | after an update, `b1` zeroes the error of `i` and `b2` that of `j`, and the new bias follows the rule of lines 117-123 |
| `Smo.TrailingZerosMeans` | src/SVM/SMOTrainer.java:133 | the counter reaches `k` exactly when the last `k` sweeps changed no multiplier |
| `Smo.SmoTrainer.constructor` | src/SVM/SMOTrainer.java:34-44 | stores the problem; `m = X.length`, `n = X[0].length`; all multipliers and `b` start at 0 |
| `Smo.SmoTrainer.Eval` | src/SVM/SMOTrainer.java:64-72 | `f(x)`, summing only over positive multipliers, plus `b` |
| `Smo.SmoTrainer.RecomputeErrors` | src/SVM/SMOTrainer.java:127-129 | every cached error becomes `f(X[k]) - y[k]` |
| `Smo.SmoTrainer.SelectJ` | src/SVM/SMOTrainer.java:137-155 | returns `j != i` in `[0, m)` that maximises `abs(errors[i] - errors[k])`, the smallest such index when some difference is positive, and any `j != i` otherwise |
| `Smo.SmoTrainer.UpdatePair` | src/SVM/SMOTrainer.java:89-129 | the multipliers, bias and errors become what one pair step prescribes; the box invariant is kept |
| `Smo.SmoTrainer.MovePair` | src/SVM/SMOTrainer.java:105-129 | the clipped move of `alphas[j]`; a move below `eps` changes only `alphas[j]`; otherwise both multipliers, the bias rule and fresh errors |
| `Smo.SmoTrainer.CommitPair` | src/SVM/SMOTrainer.java:110-129 | the paired move of `alphas[i]`, the bias of lines 112-123 and fresh errors; the box invariant is kept |
| `Smo.SmoTrainer.AttemptPair` | src/SVM/SMOTrainer.java:84-130 | a sample that passes the test of line 85 gets the pair step of `Applied` with a partner `j` that `selectJ` may return (`IsPartner`); any other sample changes nothing and does not count |
| `Smo.SmoTrainer.Sweep` | src/SVM/SMOTrainer.java:82-131 | the new multipliers, cache and bias are those of the attempts on samples `0 .. m-1` in order (`SweepStep`), and `numChangedAlphas` is the number of attempts that updated a pair; the box invariant is kept |
| `Smo.SmoTrainer.Train` | src/SVM/SMOTrainer.java:74-135 | the run starts from the current state with the cache `f(X[k]) - y[k]`; each recorded count is that of its sweep, each sweep began with fewer than `maxPasses` trailing sweeps without change, and the run returns after `maxPasses` of them (or when the sweep budget runs out), ending in the trainer's multipliers and bias, all in `[0, C]` |
| `Smo.SweepWithoutChanges` | src/SVM/SMOTrainer.java:82-131 | a sweep whose `numChangedAlphas` is 0 leaves the bias and the error cache as they were |
| `Smo.ConvergedRunIsQuiet` | src/SVM/SMOTrainer.java:81-133 | when the last `maxPasses` sweeps of a run counted no change (how `train` stops, by `Smo.SmoTrainer.Train`), the bias and the cache are those of `maxPasses` sweeps earlier |
| `Classifier.SupportIndicesExact` | src/SVM/SVMClassifier.java:33-39 | the kept indices are exactly those with `alpha > 1e-6`, in increasing order |
| `Classifier.KeptIsSelection` | src/SVM/SVMClassifier.java:33-43 | each filtered list has one entry per kept index, and entry `t` is the input's entry at the `t`-th kept index |
| `Classifier.LinearExpansion` | src/SVM/SVMClassifier.java:56-70 | with the linear kernel the kernel expansion is `w . x` |
| `Classifier.SvmClassifier.constructor` | src/SVM/SVMClassifier.java:14-19 | `gamma == 0.05`, the linear kernel, no support vectors, `b == 0` |
| `Classifier.SvmClassifier.Adopt` | src/SVM/SVMClassifier.java:28-44 | stores the parallel arrays of samples, labels and multipliers with `alpha > 1e-6`, and the solver's `b` unchanged |
| `Classifier.SvmClassifier.Train` | src/SVM/SVMClassifier.java:21-45 | stores the kernel and gamma; the solver's run on `(X, y, C)` starts from zero multipliers and `b = 0` and follows `TrainTrace`; the classifier keeps the support vectors of the run's final multipliers (all in `[0, C]`) and its final `b` |
| `Classifier.SvmClassifier.DecisionFunction` | src/SVM/SVMClassifier.java:56-62 | `sum of alphas[i] * supportLabels[i] * kernel(sv_i, x) + b`; `b` when there are no support vectors |
| `Classifier.SvmClassifier.Predict` | src/SVM/SVMClassifier.java:47-54 | returns 1 or -1, and 1 exactly when the decision value is at least 0 |
| `Clustering.CloseIff` | src/Utils/SVMTester.java:111-115 | two centres are closer than the threshold exactly when their squared distance is below its square |
| `Clustering.CloseSelf` | src/Utils/SVMTester.java:111-115 | a rectangle is close to itself |
| `Clustering.BBoxCovers` | src/Utils/SVMTester.java:121-133 | the bounding box covers every member of its cluster |
| `Clustering.BBoxLeast` | src/Utils/SVMTester.java:121-133 | any rectangle covering every member covers the bounding box |
| `Clustering.BBoxSingle` | src/Utils/SVMTester.java:121-133 | a single rectangle is its own bounding box |
| `Clustering.GrowSeeded` | src/Utils/SVMTester.java:107-119 | a rectangle joins only when it comes after the seed and its centre is close to the seed's |
| `Clustering.GroupsSeeded` | src/Utils/SVMTester.java:99-119 | every cluster starts with its seed and holds only later rectangles close to the seed |
| `Clustering.ClustersSeedOrder` | src/Utils/SVMTester.java:99-105 | seeds are taken in increasing index order |
| `Clustering.ClustersSeeded` | src/Utils/SVMTester.java:99-119 | every cluster of the whole input is seeded as `GroupsSeeded` states |
| `Clustering.GrowMoves` | src/Utils/SVMTester.java:107-119 | growing a cluster moves indices from "not visited" into the cluster, losing and duplicating none |
| `Clustering.GroupsPartition` | src/Utils/SVMTester.java:99-119 | the clusters found from index `i` on hold exactly the unvisited indices from `i` on |
| `Clustering.ClustersPartition` | src/Utils/SVMTester.java:97-119 | every input rectangle ends up in exactly one cluster |
| `Clustering.MergeCovers` | src/Utils/SVMTester.java:99-137 | every input rectangle is covered by some output rectangle |
| `Clustering.MergeCount` | src/Utils/SVMTester.java:99-138 | the output is no longer than the input, and empty exactly when the input is |
| `Clustering.MergeScattered` | src/Utils/SVMTester.java:95-138 | when no two centres are closer than the threshold, the output equals the input; `minArea` filters nothing |
| `Clustering.BoundingBox` | src/Utils/SVMTester.java:121-133 | the `min`/`max` loop computes the bounding box |
| `Clustering.GrowCluster` | src/Utils/SVMTester.java:102-119 | the cluster and the new `visited` array are those of the scan from the seed |
| `Clustering.ClusterDetections` | src/Utils/SVMTester.java:95-139 | the merged detections of the whole input |
| `Detector.WindowCount` | src/Utils/SVMTester.java:41-42 | an axis of `W` pixels has `(W - 128) / 32 + 1` window positions when `W >= 128`, and none otherwise |
| `Detector.OffsetsExact` | src/Utils/SVMTester.java:41-42 | the visited offsets are exactly the non-negative multiples of 32 with `o + 128 <= W`, in increasing order |
| `Detector.ScaledExtent` | src/Utils/SVMTester.java:86-87 | `(int)(w * scale)` is non-negative |
| `Detector.MapBack` | src/Utils/SVMTester.java:54-57 | the mapped rectangle is a square with a non-negative corner and a side of at least 128 |
| `Detector.ScalesVisited` | src/Utils/SVMTester.java:33-62 | the scale loop runs exactly for 1.0, 0.9, 0.8, 0.7 and 0.6 |
| `Detector.DetectionsShape` | src/Utils/SVMTester.java:51-57 | every raw detection is a square of side at least 128 with a non-negative corner |
| `Detector.RowDetectionsExact` | src/Utils/SVMTester.java:42-58 | a rectangle is detected in a row exactly when some window of the row has `score > 0` and maps to it |
| `Detector.ScaleDetectionsExact` | src/Utils/SVMTester.java:41-60 | the same for all rows of one scale |
| `Detector.ScanRow` | src/Utils/SVMTester.java:42-59 | the detections of one row of windows, left to right |
| `Detector.ScanScale` | src/Utils/SVMTester.java:41-60 | the detections of one scale, row by row |
| `Detector.ScanResized` | src/Utils/SVMTester.java:36-60 | the detections in the image resized by `s` |
| `Detector.ScanAllScales` | src/Utils/SVMTester.java:32-63 | the detections of all five scales, in scale order |
| `Detector.GetDetections` | src/Utils/SVMTester.java:31-66 | the raw detections merged with threshold 150 |
| `Detector.MergedCorner` | src/Utils/SVMTester.java:65 | every merged detection has a non-negative corner |
| `Detector.BBoxCorner` | src/Utils/SVMTester.java:121-133 | a bounding box of rectangles with non-negative corners has a non-negative corner |
| `Detector.CropInside` | src/Utils/SVMTester.java:161-166 | a crop that is not skipped is a non-empty rectangle inside the image |
| `Detector.CropIsIntersection` | src/Utils/SVMTester.java:161-166 | for a detection with a non-negative corner, the crop is exactly its part inside the image, and it is skipped exactly when that part is empty |
| `Detector.CropsInside` | src/Utils/SVMTester.java:159-177 | at most one crop per detection, each inside the image |
| `Detector.SaveCrops` | src/Utils/SVMTester.java:159-177 | one crop per detection whose clamped region is not empty, and `count` is the number of crops |
| `Detector.DetectAndSaveAllHeads` | src/Utils/SVMTester.java:150-180 | the crops of the merged detections, none when nothing was detected |
| `Training.Std` | src/Utils/TrainingUtility.java:47-50 | the corrected standard deviation is never 0 |
| `Training.Normalized` | src/Utils/TrainingUtility.java:53-58 | a `numSamples` by `numFeatures` matrix |
| `Training.SumStandardized` | src/Utils/TrainingUtility.java:56 | the sum of `(x - c) / d` over a column is `(sum - n * c) / d` |
| `Training.NormalizedColumn` | src/Utils/TrainingUtility.java:53-58 | column `j` of the result is column `j` of the input standardised by its mean and corrected std |
| `Training.ColumnSumsZero` | src/Utils/TrainingUtility.java:33-58 | every normalised column sums to zero |
| `Training.CenteredSumZero` | src/Utils/TrainingUtility.java:33-39 | a column minus its mean, divided by any non-zero value, sums to zero |
| `Training.ConstantColumn` | src/Utils/TrainingUtility.java:41-56 | a constant column gets std 1.0 and comes out all zeros |
| `Training.DeviationsPositive` | src/Utils/TrainingUtility.java:42-46 | a column that is not constant has a positive `sumSq` |
| `Training.VaryingSpread` | src/Utils/TrainingUtility.java:47 | the std is the population std: its square is `sumSq / numSamples` |
| `Training.UnitVariance` | src/Utils/TrainingUtility.java:41-58 | a column that is not constant comes out with squared entries summing to `numSamples` |
| `Training.ColumnSum` | src/Utils/TrainingUtility.java:34-37 | the column sum, or nothing when some row is too short for column `j` |
| `Training.ColumnSpread` | src/Utils/TrainingUtility.java:42-46 | the sum of squared deviations from the mean |
| `Training.ComputeMeans` | src/Utils/TrainingUtility.java:33-39 | fills `means`, failing exactly when some row is shorter than the first |
| `Training.ComputeStds` | src/Utils/TrainingUtility.java:41-51 | fills `stds` with the corrected population stds |
| `Training.NormalizeRow` | src/Utils/TrainingUtility.java:55-57 | entry `j` becomes `(x[j] - means[j]) / stds[j]` |
| `Training.NormalizeRows` | src/Utils/TrainingUtility.java:53-58 | the normalised matrix |
| `Training.NormalizeFeatures` | src/Utils/TrainingUtility.java:27-61 | the normalised matrix, or an index error on an empty input or a row shorter than the first |
| `Training.ToLowerSuffix` | src/Utils/TrainingUtility.java:118-119 | lower-casing commutes with taking a suffix |
| `Training.IsImageFileIff` | src/Utils/TrainingUtility.java:117-120 | a name is accepted exactly when some suffix of it lower-cases to `.jpg`, `.jpeg`, `.png` or `.bmp` |
| `Training.IsImageFileIgnoresCase` | src/Utils/TrainingUtility.java:117-120 | a name and its lower-cased form are accepted alike |
| `Training.LoadedSetShape` | src/Utils/TrainingUtility.java:79-110 | as many labels as feature rows; all positives (label 1) come before all negatives (label -1) |
| `Training.LoadFailsIff` | src/Utils/TrainingUtility.java:69-112 | loading succeeds exactly when both folders list and at least one image was accepted |
| `Training.SamplesLength` | src/Utils/TrainingUtility.java:83 | every sample is a descriptor of the common length |
| `Training.CollectSamples` | src/Utils/TrainingUtility.java:79-87 | the accepted descriptors in listing order, each with the folder's label |
| `Training.LoadTrainingData` | src/Utils/TrainingUtility.java:63-115 | the normalised samples with their labels, or the exception the source throws |

## Left out

- Image decoding, resizing and cropping through AWT (`resizeImage`, `getRGB`/`setRGB`, `getSubimage`, `drawImage`) are not modelled. `ExtractHog` takes an image that is already 128 by 128. The detector sees the scaled image only through `score`.
- The classifier that scores a window in `getDetections` is an OpenCV model (`SVMTrainer`, `ModelLoader`). It is not part of this model and is the parameter `score(scale, x, y)`.
- File and console I/O are not modelled: `ImageIO`, `File.listFiles`, `mkdirs`, the files `head_<n>.png`, the `System.out` lines, `saveModel`/`loadModel`. A folder listing is a sequence of `FileEntry` values. Each entry carries the descriptor that reading and describing its image would give, or nothing when `ImageIO.read` fails.
- Floating point is not modelled: all arithmetic is exact `real` arithmetic. So the scale loop visits exactly 1.0, 0.9, 0.8, 0.7 and 0.6. The `(float)` casts of the descriptor and the score are identities.
- Detector.MapBack: it divides by the exact scales. In doubles, `scaleFactor -= 0.1` (src/Utils/SVMTester.java:62) gives 0.7000000000000001 and 0.6000000000000001, so `(int) (x / scaleFactor)` is one pixel smaller than the model's `Floor` wherever `x / scale` is a whole number: offsets that are multiples of 224 at scale 0.7 (224 maps to 319, not 320) and multiples of 96 at scale 0.6 (192 maps to 319, not 320). The side `(int) (128 / scaleFactor)` agrees at every scale.
- `sqrt`, `exp`, `hypot`, `atan2` and `pow(_, 0.5)` are parameters constrained only by the range facts listed above. Gamma correction's `pow(c, 0.5)` is the square root.
- Java `int` overflow is not modelled: coordinates and sizes are unbounded integers. `Clustering.BBoxLeast` and `Clustering.BBoxSingle` require each coordinate and far edge fits in a Java `int`, because the bounding-box loop starts from `Integer.MAX_VALUE` and `Integer.MIN_VALUE`.
- Smo.SmoTrainer.Train: the source's loop need not terminate. The model runs at most `fuel` sweeps and reports whether it stopped by the `maxPasses` rule.
- Smo.SmoTrainer.SelectJ: the `Random` fallback is a nondeterministic choice of any `j != i`. It requires `m >= 2`, since with a single sample the source's retry loop never ends.
- Smo.SmoTrainer.constructor: it requires at least one sample, one label per sample, labels in {+1, -1}, `0 <= C`, and rows at least `X[0].length` long. The source checks none of these. An empty `X` makes `X[0]` throw `ArrayIndexOutOfBoundsException` (src/SVM/SMOTrainer.java:38), and the model has no such failure; the box and error-cache invariants rely on the rest.
- Hog.HogExtractor.WithGeometry: it takes natural numbers and requires `0 < cellSize` and `0 < bins`. The Java constructor (src/Hog/HogExtractor.java:22-26) accepts any `int` and never throws. With `cellSize == 0` the divisions of line 162 later throw `ArithmeticException`; with `bins == 0` the `% bins` of line 181 does, once a cell holds a pixel. Negative sizes give a negative histogram dimension (`NegativeArraySizeException`) or empty loops. Its only caller, `HogFeatureExtractor(int, int, int)` (src/Hog/HogFeatureExtractor.java:20), is never called.
- The three-argument `SMOTrainer` constructor (src/SVM/SMOTrainer.java:30-32) is not modelled separately. It is the five-argument one with the linear kernel and gamma 0.05.
- An abandoned step (line 108) leaves `alphas[j]` moved and keeps the error cache as it was, so later cached errors may be stale. The model keeps this as written: `Applied` moves only `alphas[j]` in that case.
- Classifier.SvmClassifier.Train: it requires at least two samples, as `Smo.SmoTrainer.SelectJ` does.
- Classifier.SvmClassifier.Predict and Classifier.SvmClassifier.DecisionFunction: they require rows at least as long as the support vectors. Calling `predict` before `train` (null arrays in Java) is not modelled; the constructor starts with no support vectors instead.
- SmoSpec.EligibleIffNotKkt: it requires `0 < C`. With `C == 0` both the test and the KKT conditions are trivial.
- The `minArea` argument of `clusterDetections` is never read by the source, so the model has no such parameter.
- Training.ToLower: it folds only the ASCII letters `A`-`Z`. `String.toLowerCase` is locale-dependent Unicode lower-casing.
- `normalizeFeatures` builds its result as a sequence of rows rather than a `double[][]` filled in place.
- `loadTrainingData` creates the folders `TrainImages/positive` and `TrainImages/negative`, which nothing reads. That is left out with the rest of the file I/O.
- The GUIs, the webcam code and the command-line trainers are not part of this model.
