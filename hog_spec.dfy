/** Specification functions and lemmas for the HOG descriptor engine
    (src/Hog/HogExtractor.java). The methods of class `Hog.HogExtractor` are
    proved against these definitions. Images are `array2<real>` indexed
    `[row, column]`, as the Java `double[height][width]` arrays. */
module HogSpec {
  import opened Numerics

  // ---------------------------------------------------------------------
  // Grayscale conversion and gamma correction
  // ---------------------------------------------------------------------

  /** An RGB pixel with 8-bit channels, as returned by `Color(getRGB(x, y))`. */
  datatype Rgb = Rgb(red: int, green: int, blue: int)

  predicate IsChannel(c: int) { 0 <= c <= 255 }

  predicate IsColour(p: Rgb) { IsChannel(p.red) && IsChannel(p.green) && IsChannel(p.blue) }

  /** Luma weights of `convertToGrayscale`. */
  function Luma(p: Rgb): (v: real)
    ensures IsColour(p) ==> 0.0 <= v <= 255.0
  {
    0.299 * p.red as real + 0.587 * p.green as real + 0.114 * p.blue as real
  }

  /** `(int) (255 * Math.pow(c / 255.0, 0.5))`, with `pow(_, 0.5)` the square root. */
  function GammaChannel(t: Transcendentals, c: int): (r: int)
    requires t.SqrtValid() && IsChannel(c)
    ensures IsChannel(r)
  {
    var u := c as real / 255.0;
    SqrtAtMostOne(t, u);
    (255.0 * t.sqrt(u)).Floor
  }

  lemma SqrtAtMostOne(t: Transcendentals, u: real)
    requires t.SqrtValid() && 0.0 <= u <= 1.0
    ensures 0.0 <= t.sqrt(u) <= 1.0
  {
    var s := t.sqrt(u);
    assert 0.0 <= s && s * s == u;
    if 1.0 < s {
      SquareLess(1.0, s, 1.0, u);
    }
  }

  function GammaPixel(t: Transcendentals, p: Rgb): (r: Rgb)
    requires t.SqrtValid() && IsColour(p)
    ensures IsColour(r)
  {
    Rgb(GammaChannel(t, p.red), GammaChannel(t, p.green), GammaChannel(t, p.blue))
  }

  // ---------------------------------------------------------------------
  // 3x3 smoothing (`applyGaussianBlur`)
  // ---------------------------------------------------------------------

  /** The 1-2-1 / 2-4-2 / 1-2-1 smoothing kernel, indexed by offsets in [-1, 1]. */
  function GaussWeight(ky: int, kx: int): real
    requires -1 <= ky <= 1 && -1 <= kx <= 1
  {
    if ky == 0 && kx == 0 then 4.0
    else if ky == 0 || kx == 0 then 2.0
    else 1.0
  }

  predicate Interior(h: int, w: int, y: int, x: int) {
    1 <= y < h - 1 && 1 <= x < w - 1
  }

  /** Weighted samples of kernel row `ky`, offsets `kx` in [-1, kxEnd). */
  function BlurRowSum(src: array2<real>, y: int, x: int, ky: int, kxEnd: int): real
    requires Interior(src.Length0, src.Length1, y, x)
    requires -1 <= ky <= 1 && -1 <= kxEnd <= 2
    reads src
    decreases kxEnd + 1
  {
    if kxEnd == -1 then 0.0
    else BlurRowSum(src, y, x, ky, kxEnd - 1) + src[y + ky, x + kxEnd - 1] * GaussWeight(ky, kxEnd - 1)
  }

  /** Weighted samples of kernel rows [-1, kyEnd). */
  function BlurSum(src: array2<real>, y: int, x: int, kyEnd: int): real
    requires Interior(src.Length0, src.Length1, y, x)
    requires -1 <= kyEnd <= 2
    reads src
    decreases kyEnd + 1
  {
    if kyEnd == -1 then 0.0
    else BlurSum(src, y, x, kyEnd - 1) + BlurRowSum(src, y, x, kyEnd - 1, 2)
  }

  /** The kernel weights of row `ky` accumulated so far (the `weightSum` variable). */
  function WeightRowSum(ky: int, kxEnd: int): real
    requires -1 <= ky <= 1 && -1 <= kxEnd <= 2
    decreases kxEnd + 1
  {
    if kxEnd == -1 then 0.0 else WeightRowSum(ky, kxEnd - 1) + GaussWeight(ky, kxEnd - 1)
  }

  function WeightSum(kyEnd: int): real
    requires -1 <= kyEnd <= 2
    decreases kyEnd + 1
  {
    if kyEnd == -1 then 0.0 else WeightSum(kyEnd - 1) + WeightRowSum(kyEnd - 1, 2)
  }

  /** Every interior pixel is normalised by the same weight total, 16. */
  lemma WeightSumIsSixteen()
    ensures WeightSum(2) == 16.0
  {
    assert WeightRowSum(-1, 2) == 4.0;
    assert WeightRowSum(0, 2) == 8.0;
    assert WeightRowSum(1, 2) == 4.0;
  }

  /** The blurred value of an interior pixel. */
  function Blurred(src: array2<real>, y: int, x: int): real
    requires Interior(src.Length0, src.Length1, y, x)
    reads src
  {
    BlurSum(src, y, x, 2) / 16.0
  }

  predicate ConstantImage(img: array2<real>, c: real)
    reads img
  {
    forall i, j :: 0 <= i < img.Length0 && 0 <= j < img.Length1 ==> img[i, j] == c
  }

  lemma {:induction false} BlurRowOfConstant(src: array2<real>, c: real, y: int, x: int, ky: int, kxEnd: int)
    requires Interior(src.Length0, src.Length1, y, x)
    requires -1 <= ky <= 1 && -1 <= kxEnd <= 2
    requires ConstantImage(src, c)
    ensures BlurRowSum(src, y, x, ky, kxEnd) == c * WeightRowSum(ky, kxEnd)
    decreases kxEnd + 1
  {
    if kxEnd > -1 {
      BlurRowOfConstant(src, c, y, x, ky, kxEnd - 1);
    }
  }

  lemma {:induction false} BlurOfConstantSum(src: array2<real>, c: real, y: int, x: int, kyEnd: int)
    requires Interior(src.Length0, src.Length1, y, x)
    requires -1 <= kyEnd <= 2
    requires ConstantImage(src, c)
    ensures BlurSum(src, y, x, kyEnd) == c * WeightSum(kyEnd)
    decreases kyEnd + 1
  {
    if kyEnd > -1 {
      BlurOfConstantSum(src, c, y, x, kyEnd - 1);
      BlurRowOfConstant(src, c, y, x, kyEnd - 1, 2);
    }
  }

  /** Smoothing leaves a constant image unchanged at every interior pixel. */
  lemma BlurOfConstant(src: array2<real>, c: real, y: int, x: int)
    requires Interior(src.Length0, src.Length1, y, x)
    requires ConstantImage(src, c)
    ensures Blurred(src, y, x) == c
  {
    BlurOfConstantSum(src, c, y, x, 2);
    WeightSumIsSixteen();
  }

  // ---------------------------------------------------------------------
  // Clamped Sobel gradients (`computeGradients`)
  // ---------------------------------------------------------------------

  /** The two Sobel kernels: `Horizontal` is `gx`, `Vertical` is `gy`. */
  datatype Axis = Horizontal | Vertical

  /** `gx[ky + 1][kx + 1]` or `gy[ky + 1][kx + 1]`. */
  function SobelWeight(axis: Axis, ky: int, kx: int): real
    requires -1 <= ky <= 1 && -1 <= kx <= 1
  {
    match axis
    case Horizontal =>
      if kx == 0 then 0.0
      else if ky == 0 then (if kx < 0 then -2.0 else 2.0)
      else if kx < 0 then -1.0 else 1.0
    case Vertical =>
      if ky == 0 then 0.0
      else if kx == 0 then (if ky < 0 then 2.0 else -2.0)
      else if ky < 0 then 1.0 else -1.0
  }

  /** The pixel sampled for offset `(ky, kx)`: both coordinates are clamped
      into the image, so border pixels repeat outwards. */
  function Tap(img: array2<real>, y: int, x: int, ky: int, kx: int): real
    requires 1 <= img.Length0 && 1 <= img.Length1
    reads img
  {
    img[ClampInt(y + ky, 0, img.Length0 - 1), ClampInt(x + kx, 0, img.Length1 - 1)]
  }

  function SobelRowSum(img: array2<real>, axis: Axis, y: int, x: int, ky: int, kxEnd: int): real
    requires 1 <= img.Length0 && 1 <= img.Length1
    requires -1 <= ky <= 1 && -1 <= kxEnd <= 2
    reads img
    decreases kxEnd + 1
  {
    if kxEnd == -1 then 0.0
    else SobelRowSum(img, axis, y, x, ky, kxEnd - 1) + SobelWeight(axis, ky, kxEnd - 1) * Tap(img, y, x, ky, kxEnd - 1)
  }

  function SobelSum(img: array2<real>, axis: Axis, y: int, x: int, kyEnd: int): real
    requires 1 <= img.Length0 && 1 <= img.Length1
    requires -1 <= kyEnd <= 2
    reads img
    decreases kyEnd + 1
  {
    if kyEnd == -1 then 0.0
    else SobelSum(img, axis, y, x, kyEnd - 1) + SobelRowSum(img, axis, y, x, kyEnd - 1, 2)
  }

  /** `gradX` (or `gradY`) after the division by 8. */
  function Gradient(img: array2<real>, axis: Axis, y: int, x: int): real
    requires 1 <= img.Length0 && 1 <= img.Length1
    reads img
  {
    SobelSum(img, axis, y, x, 2) / 8.0
  }

  function SobelWeightRowSum(axis: Axis, ky: int, kxEnd: int): real
    requires -1 <= ky <= 1 && -1 <= kxEnd <= 2
    decreases kxEnd + 1
  {
    if kxEnd == -1 then 0.0 else SobelWeightRowSum(axis, ky, kxEnd - 1) + SobelWeight(axis, ky, kxEnd - 1)
  }

  function SobelWeightSum(axis: Axis, kyEnd: int): real
    requires -1 <= kyEnd <= 2
    decreases kyEnd + 1
  {
    if kyEnd == -1 then 0.0 else SobelWeightSum(axis, kyEnd - 1) + SobelWeightRowSum(axis, kyEnd - 1, 2)
  }

  /** Both Sobel kernels have zero sum. */
  lemma SobelWeightsCancel(axis: Axis)
    ensures SobelWeightSum(axis, 2) == 0.0
  {
    assert SobelWeightRowSum(axis, -1, 2) == (if axis == Horizontal then 0.0 else 4.0);
    assert SobelWeightRowSum(axis, 0, 2) == 0.0;
    assert SobelWeightRowSum(axis, 1, 2) == (if axis == Horizontal then 0.0 else -4.0);
  }

  lemma AddScaled(c: real, a: real, w: real)
    ensures c * a + c * w == c * (a + w)
    ensures c * a + w * c == c * (a + w)
  {
  }

  lemma {:induction false} SobelRowOfConstant(img: array2<real>, c: real, axis: Axis, y: int, x: int, ky: int, kxEnd: int)
    requires 1 <= img.Length0 && 1 <= img.Length1
    requires -1 <= ky <= 1 && -1 <= kxEnd <= 2
    requires ConstantImage(img, c)
    ensures SobelRowSum(img, axis, y, x, ky, kxEnd) == c * SobelWeightRowSum(axis, ky, kxEnd)
    decreases kxEnd + 1
  {
    if kxEnd > -1 {
      SobelRowOfConstant(img, c, axis, y, x, ky, kxEnd - 1);
      var w := SobelWeight(axis, ky, kxEnd - 1);
      var before := SobelWeightRowSum(axis, ky, kxEnd - 1);
      assert Tap(img, y, x, ky, kxEnd - 1) == c;
      assert SobelWeightRowSum(axis, ky, kxEnd) == before + w;
      AddScaled(c, before, w);
    }
  }

  lemma {:induction false} SobelOfConstantSum(img: array2<real>, c: real, axis: Axis, y: int, x: int, kyEnd: int)
    requires 1 <= img.Length0 && 1 <= img.Length1
    requires -1 <= kyEnd <= 2
    requires ConstantImage(img, c)
    ensures SobelSum(img, axis, y, x, kyEnd) == c * SobelWeightSum(axis, kyEnd)
    decreases kyEnd + 1
  {
    if kyEnd > -1 {
      SobelOfConstantSum(img, c, axis, y, x, kyEnd - 1);
      SobelRowOfConstant(img, c, axis, y, x, kyEnd - 1, 2);
      AddScaled(c, SobelWeightSum(axis, kyEnd - 1), SobelWeightRowSum(axis, kyEnd - 1, 2));
    }
  }

  /** A constant image has zero gradient everywhere, borders included. */
  lemma GradientOfConstant(img: array2<real>, c: real, axis: Axis, y: int, x: int)
    requires 1 <= img.Length0 && 1 <= img.Length1
    requires ConstantImage(img, c)
    ensures Gradient(img, axis, y, x) == 0.0
  {
    SobelOfConstantSum(img, c, axis, y, x, 2);
    SobelWeightsCancel(axis);
  }

  /** `Math.hypot(0, 0) == 0`: a zero gradient has zero magnitude. */
  lemma HypotOfZero(t: Transcendentals)
    requires t.HypotValid()
    ensures t.hypot(0.0, 0.0) == 0.0
  {
    var r := t.hypot(0.0, 0.0);
    assert 0.0 <= r && r * r == 0.0;
    if 0.0 < r {
      ProductPos(r, r, 0.0);
    }
  }

  /** Folding of `toDegrees(atan2(gradY, gradX))` into orientations. */
  function FoldAngle(angle: real): (r: real)
    ensures -180.0 <= angle <= 180.0 ==> 0.0 <= r <= 180.0
    ensures -180.0 <= angle <= 180.0 ==> (r == 180.0 <==> angle == 180.0)
  {
    if angle < 0.0 then angle + 180.0 else angle
  }

  // ---------------------------------------------------------------------
  // Soft orientation binning
  // ---------------------------------------------------------------------

  function BinWidth(bins: nat): real
    requires 0 < bins
  {
    180.0 / bins as real
  }

  /** `bin = angle / binWidth`: the position of an angle in bin units. */
  function BinPosition(angle: real, bins: nat): real
    requires 0 < bins
  {
    angle / BinWidth(bins)
  }

  lemma BinPositionRange(angle: real, bins: nat)
    requires 0 < bins && 0.0 <= angle <= 180.0
    ensures 0.0 <= BinPosition(angle, bins) <= bins as real
    ensures BinPosition(angle, bins) == bins as real <==> angle == 180.0
  {
    var n := bins as real;
    var w := BinWidth(bins);
    var p := BinPosition(angle, bins);
    assert w * n == 180.0;
    assert 0.0 < w;
    assert p * w == angle;
    if p < 0.0 {
      ProductLt(p, 0.0, w, angle, 0.0);
    }
    if n < p {
      ProductLt(n, p, w, 180.0, angle);
    }
    if p < n {
      ProductLt(p, n, w, angle, 180.0);
    }
  }

  /** The two bins a pixel votes for, with their interpolation weights. */
  datatype BinSplit = BinSplit(low: int, high: int, weightLow: real, weightHigh: real)

  lemma ModOfSmall(v: int, n: int)
    requires 0 <= v < n
    ensures v % n == v
  {
  }

  lemma ModRange(v: int, n: int)
    requires 0 < n
    ensures 0 <= v % n < n
  {
  }

  /** Lines computing `binLow`, `binHigh`, `weightHigh` and `weightLow`. */
  function SoftBin(angle: real, bins: nat): (r: BinSplit)
    requires 0 < bins
    ensures 0 <= r.low < bins && 0 <= r.high < bins && r.high == (r.low + 1) % bins
    ensures r.weightLow + r.weightHigh == 1.0
    ensures 0.0 <= angle < 180.0 ==>
      && 0.0 <= r.weightLow <= 1.0 && 0.0 <= r.weightHigh <= 1.0
      && r.low as real <= BinPosition(angle, bins) < r.low as real + 1.0
  {
    var bin := BinPosition(angle, bins);
    var floor := bin.Floor;
    var low := floor % bins;
    ModRange(floor, bins);
    ModRange(low + 1, bins);
    var weightHigh := bin - low as real;
    if 0.0 <= angle < 180.0 then
      BinPositionRange(angle, bins);
      ModOfSmall(floor, bins);
      BinSplit(low, (low + 1) % bins, 1.0 - weightHigh, weightHigh)
    else
      BinSplit(low, (low + 1) % bins, 1.0 - weightHigh, weightHigh)
  }

  /** An angle of exactly 180 degrees lands one full period above bin 0:
      its high weight is `bins` and its low weight `1 - bins`. */
  lemma SoftBinAt180(bins: nat)
    requires 0 < bins
    ensures SoftBin(180.0, bins).low == 0
    ensures SoftBin(180.0, bins).weightHigh == bins as real
    ensures SoftBin(180.0, bins).weightLow == 1.0 - bins as real
  {
    BinPositionRange(180.0, bins);
    assert BinPosition(180.0, bins).Floor == bins;
  }

  // ---------------------------------------------------------------------
  // Cell histograms
  // ---------------------------------------------------------------------

  /** Sum of the first `n` entries of a histogram, accumulated left to right. */
  function SumTo(s: seq<real>, n: nat): real
    requires n <= |s|
  {
    if n == 0 then 0.0 else SumTo(s, n - 1) + s[n - 1]
  }

  function Sum(s: seq<real>): real {
    SumTo(s, |s|)
  }

  /** `new double[n]`: a histogram of zeros. */
  function Zeros(n: nat): (r: seq<real>)
    ensures |r| == n && forall i :: 0 <= i < n ==> r[i] == 0.0
  {
    seq(n, _ => 0.0)
  }

  lemma {:induction false} SumToZeros(n: nat, k: nat)
    requires k <= n
    ensures SumTo(Zeros(n), k) == 0.0
  {
    if k > 0 {
      SumToZeros(n, k - 1);
    }
  }

  predicate NonNegative(s: seq<real>) {
    forall i :: 0 <= i < |s| ==> 0.0 <= s[i]
  }

  lemma {:induction false} SumToUpdate(s: seq<real>, i: nat, v: real, n: nat)
    requires i < |s| && n <= |s|
    ensures SumTo(s[i := v], n) == SumTo(s, n) - (if i < n then s[i] - v else 0.0)
  {
    if n > 0 {
      SumToUpdate(s, i, v, n - 1);
    }
  }

  lemma SumUpdate(s: seq<real>, i: nat, v: real)
    requires i < |s|
    ensures Sum(s[i := v]) == Sum(s) - s[i] + v
  {
    SumToUpdate(s, i, v, |s|);
  }

  /** `magnitude * weight`: the share of a vote that goes to one bin. */
  function Share(magnitude: real, weight: real): real {
    magnitude * weight
  }

  /** The two shares of a vote add up to the magnitude. */
  lemma SharesSplit(magnitude: real, weightLow: real, weightHigh: real)
    requires weightLow + weightHigh == 1.0
    ensures Share(magnitude, weightLow) + Share(magnitude, weightHigh) == magnitude
  {
  }

  /** The two `+=` statements of one vote: `hist[low] += shareLow; hist[high] += shareHigh`. */
  function Vote(hist: seq<real>, low: int, high: int, shareLow: real, shareHigh: real): (r: seq<real>)
    requires 0 <= low < |hist| && 0 <= high < |hist|
    ensures |r| == |hist|
  {
    var once := hist[low := hist[low] + shareLow];
    once[high := once[high] + shareHigh]
  }

  /** One pixel's vote into the histogram of its cell. */
  function Deposit(hist: seq<real>, angle: real, magnitude: real, bins: nat): (r: seq<real>)
    requires 0 < bins && |hist| == bins
    ensures |r| == bins
  {
    var b := SoftBin(angle, bins);
    Vote(hist, b.low, b.high, Share(magnitude, b.weightLow), Share(magnitude, b.weightHigh))
  }

  lemma VoteTotal(hist: seq<real>, low: int, high: int, shareLow: real, shareHigh: real)
    requires 0 <= low < |hist| && 0 <= high < |hist|
    ensures Sum(Vote(hist, low, high, shareLow, shareHigh)) == Sum(hist) + shareLow + shareHigh
  {
    var once := hist[low := hist[low] + shareLow];
    SumUpdate(hist, low, hist[low] + shareLow);
    SumUpdate(once, high, once[high] + shareHigh);
  }

  /** Each pixel adds exactly its magnitude to the histogram total. */
  lemma DepositTotal(hist: seq<real>, angle: real, magnitude: real, bins: nat)
    requires 0 < bins && |hist| == bins
    ensures Sum(Deposit(hist, angle, magnitude, bins)) == Sum(hist) + magnitude
  {
    var b := SoftBin(angle, bins);
    VoteTotal(hist, b.low, b.high, Share(magnitude, b.weightLow), Share(magnitude, b.weightHigh));
    SharesSplit(magnitude, b.weightLow, b.weightHigh);
  }

  lemma VoteNonNegative(hist: seq<real>, low: int, high: int, shareLow: real, shareHigh: real)
    requires 0 <= low < |hist| && 0 <= high < |hist| && NonNegative(hist)
    requires 0.0 <= shareLow && 0.0 <= shareHigh
    ensures NonNegative(Vote(hist, low, high, shareLow, shareHigh))
  {
  }

  /** A vote for an angle in [0, 180) keeps a non-negative histogram non-negative. */
  lemma DepositNonNegative(hist: seq<real>, angle: real, magnitude: real, bins: nat)
    requires 0 < bins && |hist| == bins && NonNegative(hist)
    requires 0.0 <= magnitude && 0.0 <= angle < 180.0
    ensures NonNegative(Deposit(hist, angle, magnitude, bins))
  {
    var b := SoftBin(angle, bins);
    var pl, ph := Share(magnitude, b.weightLow), Share(magnitude, b.weightHigh);
    ProductNonneg(magnitude, b.weightLow, pl);
    ProductNonneg(magnitude, b.weightHigh, ph);
    VoteNonNegative(hist, b.low, b.high, pl, ph);
  }

  /** A vote at exactly 180 degrees with two or more bins drives bin 0 negative. */
  lemma DepositAt180Negative(magnitude: real, bins: nat)
    requires 2 <= bins && 0.0 < magnitude
    ensures Deposit(Zeros(bins), 180.0, magnitude, bins)[0] < 0.0
    ensures Deposit(Zeros(bins), 180.0, magnitude, bins)[1] == magnitude * bins as real
  {
    SoftBinAt180(bins);
    var b := SoftBin(180.0, bins);
    assert b.low == 0 && b.high == 1;
    var pl, ph := Share(magnitude, b.weightLow), Share(magnitude, b.weightHigh);
    ProductLt(b.weightLow, 0.0, magnitude, pl, 0.0);
    var z := Zeros(bins);
    var v := Vote(z, 0, 1, pl, ph);
    assert v[0] == pl && v[1] == ph;
  }

  /** Gradient planes of equal size. */
  predicate SameShape(mag: array2<real>, ang: array2<real>) {
    mag.Length0 == ang.Length0 && mag.Length1 == ang.Length1
  }

  /** Cell `(cy, cx)` of side `cs` lies inside an `h` by `w` plane. */
  predicate CellInside(h: int, w: int, cs: nat, cy: int, cx: int) {
    && 0 <= cy && 0 <= cx && 0 <= cy * cs && 0 <= cx * cs
    && cy * cs + cs <= h && cx * cs + cs <= w
  }

  lemma MulNonneg(a: nat, c: nat)
    ensures 0 <= a * c
  {
  }

  lemma MulMonotone(a: int, c: int, k: nat)
    requires a <= c
    ensures a * k <= c * k
  {
  }

  /** Every cell counted by `cellsX = width / cellSize` fits inside the plane:
      `cx * cellSize + x < cellsX * cellSize <= width`. */
  lemma CellFits(extent: nat, cs: nat, c: int)
    requires 0 < cs && 0 <= c < extent / cs
    ensures 0 <= c * cs && c * cs + cs <= extent
  {
    MulNonneg(c, cs);
    MulMonotone(c + 1, extent / cs, cs);
    assert (extent / cs) * cs <= extent;
  }

  /** The votes of pixels `0 .. xEnd-1` of row `y` of the cell, cast in order into `hist`. */
  function RowVotes(hist: seq<real>, mag: array2<real>, ang: array2<real>, cs: nat, bins: nat,
                    cy: int, cx: int, y: int, xEnd: int): (r: seq<real>)
    requires 0 < bins && |hist| == bins && SameShape(mag, ang)
    requires CellInside(mag.Length0, mag.Length1, cs, cy, cx)
    requires 0 <= y < cs && 0 <= xEnd <= cs
    reads mag, ang
    ensures |r| == bins
    decreases xEnd
  {
    if xEnd == 0 then hist
    else
      var py, px := cy * cs + y, cx * cs + xEnd - 1;
      Deposit(RowVotes(hist, mag, ang, cs, bins, cy, cx, y, xEnd - 1), ang[py, px], mag[py, px], bins)
  }

  /** The histogram of cell `(cy, cx)` after its rows `0 .. yEnd-1`, from zeros. */
  function CellHistogram(mag: array2<real>, ang: array2<real>, cs: nat, bins: nat,
                         cy: int, cx: int, yEnd: int): (r: seq<real>)
    requires 0 < bins && SameShape(mag, ang)
    requires CellInside(mag.Length0, mag.Length1, cs, cy, cx)
    requires 0 <= yEnd <= cs
    reads mag, ang
    ensures |r| == bins
    decreases yEnd
  {
    if yEnd == 0 then Zeros(bins)
    else RowVotes(CellHistogram(mag, ang, cs, bins, cy, cx, yEnd - 1), mag, ang, cs, bins, cy, cx, yEnd - 1, cs)
  }

  function RowMagnitude(mag: array2<real>, cs: nat, cy: int, cx: int, y: int, xEnd: int): real
    requires CellInside(mag.Length0, mag.Length1, cs, cy, cx)
    requires 0 <= y < cs && 0 <= xEnd <= cs
    reads mag
    decreases xEnd
  {
    if xEnd == 0 then 0.0 else RowMagnitude(mag, cs, cy, cx, y, xEnd - 1) + mag[cy * cs + y, cx * cs + xEnd - 1]
  }

  function CellMagnitude(mag: array2<real>, cs: nat, cy: int, cx: int, yEnd: int): real
    requires CellInside(mag.Length0, mag.Length1, cs, cy, cx)
    requires 0 <= yEnd <= cs
    reads mag
    decreases yEnd
  {
    if yEnd == 0 then 0.0 else CellMagnitude(mag, cs, cy, cx, yEnd - 1) + RowMagnitude(mag, cs, cy, cx, yEnd - 1, cs)
  }

  lemma AddOn(total: real, before: real, start: real, added: real, addedNow: real, m: real)
    requires total == before + m && before == start + added && addedNow == added + m
    ensures total == start + addedNow
  {
  }

  lemma {:induction false} RowVotesTotal(hist: seq<real>, mag: array2<real>, ang: array2<real>, cs: nat, bins: nat,
                                         cy: int, cx: int, y: int, xEnd: int)
    requires 0 < bins && |hist| == bins && SameShape(mag, ang)
    requires CellInside(mag.Length0, mag.Length1, cs, cy, cx)
    requires 0 <= y < cs && 0 <= xEnd <= cs
    ensures Sum(RowVotes(hist, mag, ang, cs, bins, cy, cx, y, xEnd)) == Sum(hist) + RowMagnitude(mag, cs, cy, cx, y, xEnd)
    decreases xEnd
  {
    if xEnd > 0 {
      var py, px := cy * cs + y, cx * cs + xEnd - 1;
      var before := RowVotes(hist, mag, ang, cs, bins, cy, cx, y, xEnd - 1);
      RowVotesTotal(hist, mag, ang, cs, bins, cy, cx, y, xEnd - 1);
      assert RowVotes(hist, mag, ang, cs, bins, cy, cx, y, xEnd) == Deposit(before, ang[py, px], mag[py, px], bins);
      assert RowMagnitude(mag, cs, cy, cx, y, xEnd) == RowMagnitude(mag, cs, cy, cx, y, xEnd - 1) + mag[py, px];
      DepositTotal(before, ang[py, px], mag[py, px], bins);
      AddOn(Sum(RowVotes(hist, mag, ang, cs, bins, cy, cx, y, xEnd)), Sum(before), Sum(hist),
            RowMagnitude(mag, cs, cy, cx, y, xEnd - 1), RowMagnitude(mag, cs, cy, cx, y, xEnd), mag[py, px]);
    }
  }

  /** A cell histogram's total is the total gradient magnitude of the cell's pixels. */
  lemma {:induction false} CellHistogramTotal(mag: array2<real>, ang: array2<real>, cs: nat, bins: nat,
                                              cy: int, cx: int, yEnd: int)
    requires 0 < bins && SameShape(mag, ang)
    requires CellInside(mag.Length0, mag.Length1, cs, cy, cx)
    requires 0 <= yEnd <= cs
    ensures Sum(CellHistogram(mag, ang, cs, bins, cy, cx, yEnd)) == CellMagnitude(mag, cs, cy, cx, yEnd)
    decreases yEnd
  {
    if yEnd > 0 {
      CellHistogramTotal(mag, ang, cs, bins, cy, cx, yEnd - 1);
      RowVotesTotal(CellHistogram(mag, ang, cs, bins, cy, cx, yEnd - 1), mag, ang, cs, bins, cy, cx, yEnd - 1, cs);
    } else {
      SumToZeros(bins, bins);
    }
  }

  /** Magnitudes are non-negative and orientations lie in [0, 180). */
  predicate RegularGradients(mag: array2<real>, ang: array2<real>)
    reads mag, ang
  {
    && SameShape(mag, ang)
    && forall i, j :: 0 <= i < mag.Length0 && 0 <= j < mag.Length1 ==> 0.0 <= mag[i, j] && 0.0 <= ang[i, j] < 180.0
  }

  lemma {:induction false} RowVotesNonNegative(hist: seq<real>, mag: array2<real>, ang: array2<real>, cs: nat, bins: nat,
                                               cy: int, cx: int, y: int, xEnd: int)
    requires 0 < bins && |hist| == bins && NonNegative(hist) && RegularGradients(mag, ang)
    requires CellInside(mag.Length0, mag.Length1, cs, cy, cx)
    requires 0 <= y < cs && 0 <= xEnd <= cs
    ensures NonNegative(RowVotes(hist, mag, ang, cs, bins, cy, cx, y, xEnd))
    decreases xEnd
  {
    if xEnd > 0 {
      var py, px := cy * cs + y, cx * cs + xEnd - 1;
      RowVotesNonNegative(hist, mag, ang, cs, bins, cy, cx, y, xEnd - 1);
      DepositNonNegative(RowVotes(hist, mag, ang, cs, bins, cy, cx, y, xEnd - 1), ang[py, px], mag[py, px], bins);
    }
  }

  /** Without 180-degree orientations every cell histogram is non-negative. */
  lemma {:induction false} CellHistogramNonNegative(mag: array2<real>, ang: array2<real>, cs: nat, bins: nat,
                                                    cy: int, cx: int, yEnd: int)
    requires 0 < bins && RegularGradients(mag, ang)
    requires CellInside(mag.Length0, mag.Length1, cs, cy, cx)
    requires 0 <= yEnd <= cs
    ensures NonNegative(CellHistogram(mag, ang, cs, bins, cy, cx, yEnd))
    decreases yEnd
  {
    if yEnd > 0 {
      CellHistogramNonNegative(mag, ang, cs, bins, cy, cx, yEnd - 1);
      RowVotesNonNegative(CellHistogram(mag, ang, cs, bins, cy, cx, yEnd - 1), mag, ang, cs, bins, cy, cx, yEnd - 1, cs);
    }
  }

  // ---------------------------------------------------------------------
  // The cell grid and block assembly
  // ---------------------------------------------------------------------

  /** `rows` by `cols` cells, each a histogram of `bins` entries. */
  predicate IsGrid(g: seq<seq<seq<real>>>, rows: nat, cols: nat, bins: nat) {
    && |g| == rows
    && (forall cy :: 0 <= cy < rows ==> |g[cy]| == cols)
    && (forall cy, cx :: 0 <= cy < rows && 0 <= cx < cols ==> |g[cy][cx]| == bins)
  }

  /** Every cell of the `rows` by `cols` grid lies inside the plane. */
  lemma AllCellsFit(h: nat, w: nat, cs: nat)
    requires 0 < cs
    ensures forall cy, cx :: 0 <= cy < h / cs && 0 <= cx < w / cs ==> CellInside(h, w, cs, cy, cx)
  {
    forall cy, cx | 0 <= cy < h / cs && 0 <= cx < w / cs
      ensures CellInside(h, w, cs, cy, cx)
    {
      CellFits(h, cs, cy);
      CellFits(w, cs, cx);
    }
  }

  /** Row `cy` of `cellHistograms`. */
  function CellRow(mag: array2<real>, ang: array2<real>, cs: nat, bins: nat, cy: int): (row: seq<seq<real>>)
    requires 0 < cs && 0 < bins && SameShape(mag, ang) && 0 <= cy < mag.Length0 / cs
    reads mag, ang
    ensures |row| == mag.Length1 / cs
    ensures forall cx :: 0 <= cx < mag.Length1 / cs ==>
      CellInside(mag.Length0, mag.Length1, cs, cy, cx) && row[cx] == CellHistogram(mag, ang, cs, bins, cy, cx, cs)
  {
    AllCellsFit(mag.Length0, mag.Length1, cs);
    seq(mag.Length1 / cs, (cx: int) requires 0 <= cx < mag.Length1 / cs reads mag, ang =>
      CellHistogram(mag, ang, cs, bins, cy, cx, cs))
  }

  /** `cellHistograms`: the histogram of every cell of the gradient planes. */
  function CellGrid(mag: array2<real>, ang: array2<real>, cs: nat, bins: nat): (g: seq<seq<seq<real>>>)
    requires 0 < cs && 0 < bins && SameShape(mag, ang)
    reads mag, ang
    ensures |g| == mag.Length0 / cs
    ensures forall cy :: 0 <= cy < mag.Length0 / cs ==> g[cy] == CellRow(mag, ang, cs, bins, cy)
    ensures IsGrid(g, mag.Length0 / cs, mag.Length1 / cs, bins)
  {
    seq(mag.Length0 / cs, (cy: int) requires 0 <= cy < mag.Length0 / cs reads mag, ang =>
      CellRow(mag, ang, cs, bins, cy))
  }

  // ---------------------------------------------------------------------
  // Row-major concatenation
  // ---------------------------------------------------------------------

  /** `(y, x)` is a position of a row-major walk over `chunks`: inside row `y`
      (its end included), or the very end of the walk. */
  predicate Position<T>(chunks: seq<seq<seq<T>>>, y: nat, x: nat) {
    (y < |chunks| && x <= |chunks[y]|) || (y == |chunks| && x == 0)
  }

  /** The chunks that come before position `(y, x)`, concatenated row by row,
      left to right. */
  function RowMajor<T>(chunks: seq<seq<seq<T>>>, y: nat, x: nat): seq<T>
    requires Position(chunks, y, x)
    decreases y, x
  {
    if x == 0 then
      if y == 0 then [] else RowMajor(chunks, y - 1, |chunks[y - 1]|)
    else RowMajor(chunks, y, x - 1) + chunks[y][x - 1]
  }

  /** All chunks, concatenated in row-major order. */
  function Concat<T>(chunks: seq<seq<seq<T>>>): seq<T> {
    RowMajor(chunks, |chunks|, 0)
  }

  /** Every row holds `width` chunks of `p` entries each. */
  predicate Rectangular<T>(chunks: seq<seq<seq<T>>>, width: nat, p: nat) {
    && (forall y :: 0 <= y < |chunks| ==> |chunks[y]| == width)
    && (forall y, x :: 0 <= y < |chunks| && 0 <= x < width ==> |chunks[y][x]| == p)
  }

  lemma MulSucc(c: int, k: int)
    ensures (c + 1) * k == c * k + k
  {
  }

  /** In a rectangular layout, `(y * width + x) * p` entries precede position `(y, x)`. */
  lemma {:induction false} RowMajorLength<T>(chunks: seq<seq<seq<T>>>, width: nat, p: nat, y: nat, x: nat)
    requires Rectangular(chunks, width, p) && Position(chunks, y, x)
    ensures |RowMajor(chunks, y, x)| == (y * width + x) * p
    decreases y, x
  {
    if x == 0 {
      if y > 0 {
        RowMajorLength(chunks, width, p, y - 1, width);
        MulSucc(y - 1, width);
      }
    } else {
      RowMajorLength(chunks, width, p, y, x - 1);
      MulSucc(y * width + x - 1, p);
    }
  }

  /** What precedes a position is a prefix of the whole concatenation. */
  lemma {:induction false} RowMajorPrefix<T>(chunks: seq<seq<seq<T>>>, y: nat, x: nat)
    requires Position(chunks, y, x)
    ensures RowMajor(chunks, y, x) <= Concat(chunks)
    decreases |chunks| - y, if y < |chunks| then |chunks[y]| - x else 0
  {
    if y < |chunks| {
      if x < |chunks[y]| {
        RowMajorPrefix(chunks, y, x + 1);
        var before := RowMajor(chunks, y, x);
        assert before <= before + chunks[y][x];
      } else {
        RowMajorPrefix(chunks, y + 1, 0);
      }
    }
  }

  /** Chunk `(y, x)` sits in the concatenation right after the chunks before it. */
  lemma RowMajorChunk<T>(chunks: seq<seq<seq<T>>>, y: nat, x: nat)
    requires y < |chunks| && x < |chunks[y]|
    ensures |RowMajor(chunks, y, x)| + |chunks[y][x]| <= |Concat(chunks)|
    ensures forall j :: |RowMajor(chunks, y, x)| <= j < |RowMajor(chunks, y, x)| + |chunks[y][x]| ==>
      Concat(chunks)[j] == chunks[y][x][j - |RowMajor(chunks, y, x)|]
  {
    RowMajorPrefix(chunks, y, x + 1);
    ChunkOfPrefix(RowMajor(chunks, y, x), chunks[y][x], RowMajor(chunks, y, x + 1), Concat(chunks));
  }

  /** When `before + chunk` is a prefix of `whole`, `chunk` sits in `whole` right after `before`. */
  lemma ChunkOfPrefix<T>(before: seq<T>, chunk: seq<T>, after: seq<T>, whole: seq<T>)
    requires after == before + chunk && after <= whole
    ensures |before| + |chunk| <= |whole|
    ensures forall j :: |before| <= j < |before| + |chunk| ==> whole[j] == chunk[j - |before|]
  {
    forall j | |before| <= j < |before| + |chunk|
      ensures whole[j] == chunk[j - |before|]
    {
      assert whole[j] == after[j];
    }
  }

  /** The row-major layout: in a rectangular layout chunk `(y, x)` starts at
      offset `(y * width + x) * p`. */
  lemma RowMajorLayout<T>(chunks: seq<seq<seq<T>>>, width: nat, p: nat, y: nat, x: nat, i: nat)
    requires Rectangular(chunks, width, p) && y < |chunks| && x < width && i < p
    ensures 0 <= (y * width + x) * p + i < |Concat(chunks)|
    ensures Concat(chunks)[(y * width + x) * p + i] == chunks[y][x][i]
  {
    RowMajorLength(chunks, width, p, y, x);
    RowMajorChunk(chunks, y, x);
  }

  /** A rectangular layout concatenates to `rows * width * p` entries. */
  lemma ConcatLength<T>(chunks: seq<seq<seq<T>>>, width: nat, p: nat)
    requires Rectangular(chunks, width, p)
    ensures |Concat(chunks)| == |chunks| * width * p
  {
    RowMajorLength(chunks, width, p, |chunks|, 0);
  }

  // ---------------------------------------------------------------------
  // Blocks
  // ---------------------------------------------------------------------

  /** The `blockSize` by `blockSize` cells of the block whose top-left cell is `(top, left)`. */
  function BlockCells(g: seq<seq<seq<real>>>, rows: nat, cols: nat, bins: nat, bs: nat,
                      top: nat, left: nat): (r: seq<seq<seq<real>>>)
    requires IsGrid(g, rows, cols, bins) && top + bs <= rows && left + bs <= cols
    ensures |r| == bs && Rectangular(r, bs, bins)
    ensures forall dy, dx :: 0 <= dy < bs && 0 <= dx < bs ==> r[dy][dx] == g[top + dy][left + dx]
  {
    seq(bs, (dy: int) requires 0 <= dy < bs => g[top + dy][left .. left + bs])
  }

  /** `blockSize * blockSize * bins`: the entries of one block. */
  function BlockLength(bs: nat, bins: nat): nat {
    bs * bs * bins
  }

  /** The values of the block at `(top, left)` before normalisation: its cells
      in the order `block[index++] = val` visits them. */
  function RawBlock(g: seq<seq<seq<real>>>, rows: nat, cols: nat, bins: nat, bs: nat,
                    top: nat, left: nat): (r: seq<real>)
    requires IsGrid(g, rows, cols, bins) && top + bs <= rows && left + bs <= cols
    ensures |r| == BlockLength(bs, bins)
  {
    ConcatLength(BlockCells(g, rows, cols, bins, bs, top, left), bs, bins);
    Concat(BlockCells(g, rows, cols, bins, bs, top, left))
  }

  /** The block layout: entry `(dy * blockSize + dx) * bins + k` of a block is
      bin `k` of grid cell `(top + dy, left + dx)`. */
  lemma BlockLayout(g: seq<seq<seq<real>>>, rows: nat, cols: nat, bins: nat, bs: nat,
                    top: nat, left: nat, dy: nat, dx: nat, k: nat)
    requires IsGrid(g, rows, cols, bins) && top + bs <= rows && left + bs <= cols
    requires dy < bs && dx < bs && k < bins
    ensures var i := (dy * bs + dx) * bins + k;
            0 <= i < |RawBlock(g, rows, cols, bins, bs, top, left)| &&
            RawBlock(g, rows, cols, bins, bs, top, left)[i] == g[top + dy][left + dx][k]
  {
    var cells := BlockCells(g, rows, cols, bins, bs, top, left);
    assert RawBlock(g, rows, cols, bins, bs, top, left) == Concat(cells);
    RowMajorLayout(cells, bs, bins, dy, dx, k);
  }

  // ---------------------------------------------------------------------
  // Block normalisation (L2 and L2-Hys)
  // ---------------------------------------------------------------------

  /** `1e-6`, added under the square root of every block norm. */
  const Epsilon: real := 0.000001

  /** `L2-Hys` clipping threshold. */
  const ClipLimit: real := 0.2

  /** `norm += v * v` over the first `n` entries. */
  function SumSquaresTo(s: seq<real>, n: nat): real
    requires n <= |s|
  {
    if n == 0 then 0.0 else SumSquaresTo(s, n - 1) + s[n - 1] * s[n - 1]
  }

  function SumSquares(s: seq<real>): real {
    SumSquaresTo(s, |s|)
  }

  lemma {:induction false} SumSquaresToNonneg(s: seq<real>, n: nat)
    requires n <= |s|
    ensures 0.0 <= SumSquaresTo(s, n)
  {
    if n > 0 {
      SumSquaresToNonneg(s, n - 1);
      SquareNonneg(s[n - 1], s[n - 1] * s[n - 1]);
    }
  }

  /** `Math.sqrt(norm + 1e-6)`. */
  function L2Norm(t: Transcendentals, s: seq<real>): real {
    t.sqrt(SumSquares(s) + Epsilon)
  }

  /** The norm never vanishes, so the divisions of a block are always defined. */
  lemma L2NormPositive(t: Transcendentals, s: seq<real>)
    requires t.SqrtPositive()
    ensures 0.0 < L2Norm(t, s)
  {
    SumSquaresToNonneg(s, |s|);
  }

  /** The norm squares back to the sum of squares plus `1e-6`. */
  lemma L2NormSquare(t: Transcendentals, s: seq<real>)
    requires t.SqrtValid()
    ensures 0.0 < L2Norm(t, s)
    ensures L2Norm(t, s) * L2Norm(t, s) == SumSquares(s) + Epsilon
  {
    SumSquaresToNonneg(s, |s|);
    SqrtZeroIff(t, SumSquares(s) + Epsilon);
  }

  /** `block[i] /= norm` for every `i`. */
  function DivideAll(s: seq<real>, norm: real): (r: seq<real>)
    requires norm != 0.0
    ensures |r| == |s|
  {
    seq(|s|, i requires 0 <= i < |s| => s[i] / norm)
  }

  /** `if (useL2Hys && block[i] > 0.2) block[i] = 0.2`. */
  function Clip(v: real, hys: bool): (r: real)
    ensures hys ==> r <= ClipLimit
    ensures !hys ==> r == v
  {
    if hys && v > ClipLimit then ClipLimit else v
  }

  /** The first pass over a block: divide by the norm, then clip under L2-Hys. */
  function DivideAndClip(s: seq<real>, norm: real, hys: bool): (r: seq<real>)
    requires norm != 0.0
    ensures |r| == |s|
    ensures hys ==> forall i :: 0 <= i < |r| ==> r[i] <= ClipLimit
    ensures !hys ==> r == DivideAll(s, norm)
  {
    seq(|s|, i requires 0 <= i < |s| => Clip(s[i] / norm, hys))
  }

  /** One pass over a block: divide by `Math.sqrt(norm + 1e-6)`, clipping when `clip`
      is set. The norm is positive for any square root satisfying `SqrtPositive()`
      (`L2NormPositive`); the pass leaves the block as it is otherwise, so that the
      descriptor is defined without assumptions on `t`. */
  function L2Pass(t: Transcendentals, s: seq<real>, clip: bool): (r: seq<real>)
    ensures |r| == |s|
  {
    if L2Norm(t, s) == 0.0 then s else DivideAndClip(s, L2Norm(t, s), clip)
  }

  /** A whole block after normalisation: one L2 pass, or for L2-Hys a clipped
      L2 pass followed by a second, unclipped, L2 pass. */
  function Normalized(t: Transcendentals, s: seq<real>, hys: bool): (r: seq<real>)
    ensures |r| == |s|
  {
    if hys then L2Pass(t, L2Pass(t, s, true), false) else L2Pass(t, s, false)
  }

  lemma QuotientSquare(a: real, n: real, q: real, nn: real)
    requires n != 0.0 && q == a / n && nn == n * n
    ensures nn != 0.0 && q * q == (a * a) / nn
  {
    if 0.0 < n {
      ProductPos(n, n, nn);
    } else {
      ProductPos(-n, -n, nn);
    }
    assert q * n == a;
    assert (q * q) * nn == (q * n) * (q * n);
    assert (q * q) * nn == a * a;
  }

  lemma QuotientSum(x: real, y: real, d: real)
    requires d != 0.0
    ensures x / d + y / d == (x + y) / d
  {
  }

  lemma {:induction false} SumSquaresToDivide(s: seq<real>, norm: real, n: nat)
    requires norm != 0.0 && n <= |s|
    ensures norm * norm != 0.0
    ensures SumSquaresTo(DivideAll(s, norm), n) == SumSquaresTo(s, n) / (norm * norm)
  {
    var nn := norm * norm;
    QuotientSquare(0.0, norm, 0.0, nn);
    if n > 0 {
      SumSquaresToDivide(s, norm, n - 1);
      var a := s[n - 1];
      QuotientSquare(a, norm, a / norm, nn);
      QuotientSum(SumSquaresTo(s, n - 1), a * a, nn);
    }
  }

  lemma FractionBelowOne(x: real, d: real)
    requires 0.0 <= x < d
    ensures 0.0 <= x / d < 1.0
  {
  }

  /** One L2 pass leaves a sum of squares `S / (S + 1e-6)`, which is below 1. */
  lemma L2PassBelowOne(t: Transcendentals, s: seq<real>)
    requires t.SqrtValid()
    ensures L2Norm(t, s) != 0.0 && 0.0 <= SumSquares(s)
    ensures SumSquares(DivideAll(s, L2Norm(t, s))) == SumSquares(s) / (SumSquares(s) + Epsilon)
    ensures SumSquares(DivideAll(s, L2Norm(t, s))) < 1.0
  {
    L2NormSquare(t, s);
    SumSquaresToNonneg(s, |s|);
    SumSquaresToDivide(s, L2Norm(t, s), |s|);
    FractionBelowOne(SumSquares(s), SumSquares(s) + Epsilon);
  }

  /** Both modes end with an L2 pass, so a normalised block has squared norm below 1. */
  lemma NormalizedBelowOne(t: Transcendentals, s: seq<real>, hys: bool)
    requires t.SqrtValid()
    ensures SumSquares(Normalized(t, s, hys)) < 1.0
  {
    L2NormSquare(t, s);
    if hys {
      var first := L2Pass(t, s, true);
      L2NormSquare(t, first);
      L2PassBelowOne(t, first);
    } else {
      L2PassBelowOne(t, s);
    }
  }

  /** Under L2-Hys every entry of the first pass is at most 0.2. */
  lemma ClippedBeforeRenormalisation(t: Transcendentals, s: seq<real>)
    requires t.SqrtValid()
    ensures L2Norm(t, s) != 0.0
    ensures forall i :: 0 <= i < |s| ==> DivideAndClip(s, L2Norm(t, s), true)[i] <= ClipLimit
  {
    L2NormSquare(t, s);
  }

  lemma DivideAllNonNegative(s: seq<real>, norm: real)
    requires 0.0 < norm && NonNegative(s)
    ensures NonNegative(DivideAll(s, norm))
  {
  }

  /** Normalisation keeps a non-negative block non-negative. */
  lemma NormalizedNonNegative(t: Transcendentals, s: seq<real>, hys: bool)
    requires t.SqrtValid() && NonNegative(s)
    ensures NonNegative(Normalized(t, s, hys))
  {
    L2NormSquare(t, s);
    var first := L2Pass(t, s, hys);
    DivideAllNonNegative(s, L2Norm(t, s));
    assert NonNegative(first);
    if hys {
      L2NormSquare(t, first);
      DivideAllNonNegative(first, L2Norm(t, first));
    }
  }

  // ---------------------------------------------------------------------
  // The descriptor
  // ---------------------------------------------------------------------

  /** Every normalised block, indexed by block row and block column. */
  function Blocks(t: Transcendentals, hys: bool, g: seq<seq<seq<real>>>, rows: nat, cols: nat,
                  bins: nat, bs: nat, blocksX: nat, blocksY: nat): (r: seq<seq<seq<real>>>)
    requires IsGrid(g, rows, cols, bins) && blocksY + bs <= rows + 1 && blocksX + bs <= cols + 1
    ensures |r| == blocksY && Rectangular(r, blocksX, BlockLength(bs, bins))
    ensures forall top, left :: 0 <= top < blocksY && 0 <= left < blocksX ==>
      r[top][left] == Normalized(t, RawBlock(g, rows, cols, bins, bs, top, left), hys)
  {
    seq(blocksY, (top: int) requires 0 <= top < blocksY =>
      seq(blocksX, (left: int) requires 0 <= left < blocksX =>
        Normalized(t, RawBlock(g, rows, cols, bins, bs, top, left), hys)))
  }

  /** `hogVector`: every normalised block, in block row-major order. */
  function Descriptor(t: Transcendentals, hys: bool, g: seq<seq<seq<real>>>, rows: nat, cols: nat,
                      bins: nat, bs: nat, blocksX: nat, blocksY: nat): seq<real>
    requires IsGrid(g, rows, cols, bins) && blocksY + bs <= rows + 1 && blocksX + bs <= cols + 1
  {
    Concat(Blocks(t, hys, g, rows, cols, bins, bs, blocksX, blocksY))
  }

  /** The descriptor has `blocksX * blocksY * blockSize * blockSize * bins` entries. */
  lemma DescriptorSize(t: Transcendentals, hys: bool, g: seq<seq<seq<real>>>, rows: nat, cols: nat,
                       bins: nat, bs: nat, blocksX: nat, blocksY: nat)
    requires IsGrid(g, rows, cols, bins) && blocksY + bs <= rows + 1 && blocksX + bs <= cols + 1
    ensures |Descriptor(t, hys, g, rows, cols, bins, bs, blocksX, blocksY)| == blocksX * blocksY * (bs * bs * bins)
  {
    ConcatLength(Blocks(t, hys, g, rows, cols, bins, bs, blocksX, blocksY), blocksX, BlockLength(bs, bins));
    assert blocksY * blocksX == blocksX * blocksY;
  }

  /** The descriptor layout: entry `(top * blocksX + left) * BlockLength + i` is
      entry `i` of the normalised block whose top-left cell is `(top, left)`. */
  lemma DescriptorLayout(t: Transcendentals, hys: bool, g: seq<seq<seq<real>>>, rows: nat, cols: nat,
                         bins: nat, bs: nat, blocksX: nat, blocksY: nat, top: nat, left: nat, i: nat)
    requires IsGrid(g, rows, cols, bins) && blocksY + bs <= rows + 1 && blocksX + bs <= cols + 1
    requires top < blocksY && left < blocksX && i < BlockLength(bs, bins)
    ensures 0 <= (top * blocksX + left) * BlockLength(bs, bins) + i < |Descriptor(t, hys, g, rows, cols, bins, bs, blocksX, blocksY)|
    ensures Descriptor(t, hys, g, rows, cols, bins, bs, blocksX, blocksY)[(top * blocksX + left) * BlockLength(bs, bins) + i]
         == Normalized(t, RawBlock(g, rows, cols, bins, bs, top, left), hys)[i]
  {
    RowMajorLayout(Blocks(t, hys, g, rows, cols, bins, bs, blocksX, blocksY), blocksX, BlockLength(bs, bins), top, left, i);
  }

  /** `blocksX * blocksY * blockHistogramSize`, the length `hogVector` is allocated with. */
  function DescriptorLength(height: int, width: int, cs: nat, bs: nat, bins: nat): int
    requires 0 < cs
  {
    var blocksX := width / cs - bs + 1;
    var blocksY := height / cs - bs + 1;
    blocksX * blocksY * (bs * bs * bins)
  }

  /** With the default geometry on the 128 by 128 input the descriptor has 8100 entries. */
  lemma DefaultDescriptorLength()
    ensures DescriptorLength(128, 128, 8, 2, 9) == 8100
  {
  }
}
