/** The HOG extractor of src/Hog/HogExtractor.java as a class: the stages
    assign the `grayscaleImage`, `gradientMagnitudes` and `gradientAngles`
    fields and fill arrays in nested loops, and each stage is proved against
    the specification functions of module `HogSpec`. */
module Hog {
  import opened Numerics
  import opened HogSpec

  /** Every pixel of an image has 8-bit channels. */
  predicate ColourImage(image: array2<Rgb>)
    reads image
  {
    forall y, x :: 0 <= y < image.Length0 && 0 <= x < image.Length1 ==> IsColour(image[y, x])
  }

  /** `gray` holds the luma of `image`, after gamma correction when `gamma` is set. */
  ghost predicate IsGrayscaleOf(gray: array2<real>, image: array2<Rgb>, t: Transcendentals, gamma: bool)
    reads gray, image
  {
    && t.SqrtValid() && ColourImage(image)
    && gray.Length0 == image.Length0 && gray.Length1 == image.Length1
    && forall y, x :: 0 <= y < image.Length0 && 0 <= x < image.Length1 ==>
         gray[y, x] == Luma(if gamma then GammaPixel(t, image[y, x]) else image[y, x])
  }

  /** `dst` is the smoothing of `src`: zero on the one-pixel border, the
      weighted average elsewhere. */
  predicate IsBlurOf(dst: array2<real>, src: array2<real>)
    reads dst, src
  {
    && dst.Length0 == src.Length0 && dst.Length1 == src.Length1
    && forall y, x :: 0 <= y < src.Length0 && 0 <= x < src.Length1 ==>
         if Interior(src.Length0, src.Length1, y, x) then dst[y, x] == Blurred(src, y, x) else dst[y, x] == 0.0
  }

  /** The gradient planes of `img`: magnitude `hypot(gradX, gradY)` and the
      folded orientation of `atan2(gradY, gradX)` in degrees. */
  predicate IsGradientsOf(mag: array2<real>, ang: array2<real>, img: array2<real>, t: Transcendentals)
    reads mag, ang, img
  {
    && 1 <= img.Length0 && 1 <= img.Length1
    && SameShape(mag, ang) && mag.Length0 == img.Length0 && mag.Length1 == img.Length1
    && forall y, x :: 0 <= y < img.Length0 && 0 <= x < img.Length1 ==>
         && mag[y, x] == t.hypot(Gradient(img, Horizontal, y, x), Gradient(img, Vertical, y, x))
         && ang[y, x] == FoldAngle(t.atan2Degrees(Gradient(img, Vertical, y, x), Gradient(img, Horizontal, y, x)))
  }

  /** Cell `(cy, cx)` of the histogram array holds the histogram `h`. */
  predicate HoldsCell(hist: array3<real>, cy: int, cx: int, h: seq<real>)
    reads hist
  {
    && 0 <= cy < hist.Length0 && 0 <= cx < hist.Length1 && |h| == hist.Length2
    && forall k :: 0 <= k < hist.Length2 ==> hist[cy, cx, k] == h[k]
  }

  /** The histogram array holds the grid `g`, cell by cell. */
  predicate HoldsGrid(hist: array3<real>, g: seq<seq<seq<real>>>)
    reads hist
  {
    && IsGrid(g, hist.Length0, hist.Length1, hist.Length2)
    && forall cy, cx, k :: 0 <= cy < hist.Length0 && 0 <= cx < hist.Length1 && 0 <= k < hist.Length2 ==>
         hist[cy, cx, k] == g[cy][cx][k]
  }

  /** Gradient planes describe orientations in [0, 180] and non-negative magnitudes. */
  lemma GradientRanges(mag: array2<real>, ang: array2<real>, img: array2<real>, t: Transcendentals)
    requires t.HypotValid() && t.AngleValid() && IsGradientsOf(mag, ang, img, t)
    ensures forall y, x :: 0 <= y < mag.Length0 && 0 <= x < mag.Length1 ==>
      0.0 <= mag[y, x] && 0.0 <= ang[y, x] <= 180.0
  {
  }

  /** A constant image has zero gradient magnitude at every pixel. */
  lemma ConstantImageHasNoEdges(mag: array2<real>, ang: array2<real>, img: array2<real>, t: Transcendentals, c: real)
    requires t.HypotValid() && IsGradientsOf(mag, ang, img, t) && ConstantImage(img, c)
    ensures forall y, x :: 0 <= y < mag.Length0 && 0 <= x < mag.Length1 ==> mag[y, x] == 0.0
  {
    forall y, x | 0 <= y < mag.Length0 && 0 <= x < mag.Length1
      ensures mag[y, x] == 0.0
    {
      GradientOfConstant(img, c, Horizontal, y, x);
      GradientOfConstant(img, c, Vertical, y, x);
      HypotOfZero(t);
    }
  }

  class HogExtractor {
    const cellSize: nat
    const blockSize: nat
    const bins: nat
    var gammaCorrection: bool
    var useGaussianBlur: bool
    var useL2Hys: bool

    var grayscaleImage: array2<real>
    var gradientMagnitudes: array2<real>
    var gradientAngles: array2<real>

    /** The `java.lang.Math` functions the extractor calls. */
    const math: Transcendentals

    ghost predicate Valid()
      reads this
    {
      0 < cellSize && 0 < bins
    }

    /** The default geometry: 8-pixel cells, 2 by 2-cell blocks, 9 bins, all options on. */
    constructor (math: Transcendentals)
      requires math.Valid()
      ensures Valid() && this.math == math && this.math.Valid()
      ensures cellSize == 8 && blockSize == 2 && bins == 9
      ensures gammaCorrection && useGaussianBlur && useL2Hys
    {
      this.math := math;
      cellSize, blockSize, bins := 8, 2, 9;
      gammaCorrection, useGaussianBlur, useL2Hys := true, true, true;
      grayscaleImage := new real[0, 0];
      gradientMagnitudes := new real[0, 0];
      gradientAngles := new real[0, 0];
    }

    constructor WithGeometry(cellSize: nat, blockSize: nat, bins: nat, math: Transcendentals)
      requires 0 < cellSize && 0 < bins && math.Valid()
      ensures Valid() && this.math == math && this.math.Valid()
      ensures this.cellSize == cellSize && this.blockSize == blockSize && this.bins == bins
      ensures gammaCorrection && useGaussianBlur && useL2Hys
    {
      this.math := math;
      this.cellSize, this.blockSize, this.bins := cellSize, blockSize, bins;
      gammaCorrection, useGaussianBlur, useL2Hys := true, true, true;
      grayscaleImage := new real[0, 0];
      gradientMagnitudes := new real[0, 0];
      gradientAngles := new real[0, 0];
    }

    method SetGammaCorrection(value: bool)
      modifies this
      ensures gammaCorrection == value
      ensures useGaussianBlur == old(useGaussianBlur) && useL2Hys == old(useL2Hys)
      ensures grayscaleImage == old(grayscaleImage) && gradientMagnitudes == old(gradientMagnitudes)
      ensures gradientAngles == old(gradientAngles)
    {
      gammaCorrection := value;
    }

    method SetUseGaussianBlur(value: bool)
      modifies this
      ensures useGaussianBlur == value
      ensures gammaCorrection == old(gammaCorrection) && useL2Hys == old(useL2Hys)
      ensures grayscaleImage == old(grayscaleImage) && gradientMagnitudes == old(gradientMagnitudes)
      ensures gradientAngles == old(gradientAngles)
    {
      useGaussianBlur := value;
    }

    method SetUseL2Hys(value: bool)
      modifies this
      ensures useL2Hys == value
      ensures gammaCorrection == old(gammaCorrection) && useGaussianBlur == old(useGaussianBlur)
      ensures grayscaleImage == old(grayscaleImage) && gradientMagnitudes == old(gradientMagnitudes)
      ensures gradientAngles == old(gradientAngles)
    {
      useL2Hys := value;
    }

    /** Square-root gamma on every channel, into a new image. */
    method ApplyGammaCorrection(image: array2<Rgb>) returns (corrected: array2<Rgb>)
      requires Valid() && math.SqrtValid() && ColourImage(image)
      ensures fresh(corrected) && ColourImage(corrected)
      ensures corrected.Length0 == image.Length0 && corrected.Length1 == image.Length1
      ensures forall y, x :: 0 <= y < image.Length0 && 0 <= x < image.Length1 ==>
        corrected[y, x] == GammaPixel(math, image[y, x])
    {
      var height, width := image.Length0, image.Length1;
      corrected := new Rgb[height, width]((_, _) => Rgb(0, 0, 0));
      var y := 0;
      while y < height
        invariant 0 <= y <= height
        invariant forall i, j :: 0 <= i < height && 0 <= j < width ==> IsColour(corrected[i, j])
        invariant forall i, j :: 0 <= i < y && 0 <= j < width ==> corrected[i, j] == GammaPixel(math, image[i, j])
      {
        GammaRow(math, image, corrected, y);
        y := y + 1;
      }
    }

    /** Gamma-corrects pixel row `y` of `image` into `corrected`. */
    static method GammaRow(t: Transcendentals, image: array2<Rgb>, corrected: array2<Rgb>, y: nat)
      requires t.SqrtValid() && ColourImage(image) && image != corrected
      requires corrected.Length0 == image.Length0 && corrected.Length1 == image.Length1 && y < image.Length0
      modifies corrected
      ensures forall j :: 0 <= j < image.Length1 ==> corrected[y, j] == GammaPixel(t, image[y, j])
      ensures forall i, j :: 0 <= i < image.Length0 && 0 <= j < image.Length1 && i != y ==> corrected[i, j] == old(corrected[i, j])
    {
      var x := 0;
      while x < image.Length1
        invariant 0 <= x <= image.Length1
        invariant forall j :: 0 <= j < x ==> corrected[y, j] == GammaPixel(t, image[y, j])
        invariant forall i, j :: 0 <= i < image.Length0 && 0 <= j < image.Length1 && i != y ==> corrected[i, j] == old(corrected[i, j])
      {
        var c := image[y, x];
        var r := GammaChannel(t, c.red);
        var g := GammaChannel(t, c.green);
        var b := GammaChannel(t, c.blue);
        corrected[y, x] := Rgb(r, g, b);
        x := x + 1;
      }
    }

    /** `0.299 R + 0.587 G + 0.114 B` for every pixel. */
    method ConvertToGrayscale(image: array2<Rgb>) returns (gray: array2<real>)
      ensures fresh(gray)
      ensures gray.Length0 == image.Length0 && gray.Length1 == image.Length1
      ensures forall y, x :: 0 <= y < image.Length0 && 0 <= x < image.Length1 ==> gray[y, x] == Luma(image[y, x])
    {
      var height, width := image.Length0, image.Length1;
      gray := new real[height, width]((_, _) => 0.0);
      var y := 0;
      while y < height
        invariant 0 <= y <= height
        invariant forall i, j :: 0 <= i < y && 0 <= j < width ==> gray[i, j] == Luma(image[i, j])
      {
        var x := 0;
        while x < width
          invariant 0 <= x <= width
          invariant forall i, j :: 0 <= i < y && 0 <= j < width ==> gray[i, j] == Luma(image[i, j])
          invariant forall j :: 0 <= j < x ==> gray[y, j] == Luma(image[y, j])
        {
          gray[y, x] := Luma(image[y, x]);
          x := x + 1;
        }
        y := y + 1;
      }
    }

    /** The 3 by 3 weighted sum at one interior pixel, divided by the weight total. */
    method BlurPixel(src: array2<real>, y: int, x: int) returns (v: real)
      requires Interior(src.Length0, src.Length1, y, x)
      ensures v == Blurred(src, y, x)
    {
      var sum := 0.0;
      var weightSum := 0.0;
      var ky := -1;
      while ky <= 1
        invariant -1 <= ky <= 2
        invariant sum == BlurSum(src, y, x, ky) && weightSum == WeightSum(ky)
      {
        var kx := -1;
        while kx <= 1
          invariant -1 <= kx <= 2
          invariant sum == BlurSum(src, y, x, ky) + BlurRowSum(src, y, x, ky, kx)
          invariant weightSum == WeightSum(ky) + WeightRowSum(ky, kx)
        {
          var value := src[y + ky, x + kx];
          var weight := GaussWeight(ky, kx);
          sum := sum + value * weight;
          weightSum := weightSum + weight;
          kx := kx + 1;
        }
        ky := ky + 1;
      }
      WeightSumIsSixteen();
      v := sum / weightSum;
    }

    /** Smoothing into a new plane whose one-pixel border stays zero. */
    method ApplyGaussianBlur(src: array2<real>) returns (dst: array2<real>)
      requires 1 <= src.Length0
      ensures fresh(dst) && IsBlurOf(dst, src)
    {
      var h, w := src.Length0, src.Length1;
      dst := new real[h, w]((_, _) => 0.0);
      var y := 1;
      while y < h - 1
        invariant 1 <= y && (h >= 2 ==> y <= h - 1)
        invariant forall i, j :: 0 <= i < h && 0 <= j < w ==>
          if Interior(h, w, i, j) && i < y then dst[i, j] == Blurred(src, i, j)
          else !Interior(h, w, i, j) || i >= y ==> dst[i, j] == 0.0
      {
        var x := 1;
        while x < w - 1
          invariant 1 <= x && (w >= 2 ==> x <= w - 1)
          invariant forall i, j :: 0 <= i < h && 0 <= j < w ==>
            if Interior(h, w, i, j) && (i < y || (i == y && j < x)) then dst[i, j] == Blurred(src, i, j)
            else dst[i, j] == 0.0
        {
          var v := BlurPixel(src, y, x);
          dst[y, x] := v;
          x := x + 1;
        }
        y := y + 1;
      }
    }

    /** The inner kernel loop: kernel row `ky` added to the running sums. */
    method SobelRow(img: array2<real>, y: int, x: int, ky: int, sumX: real, sumY: real) returns (gradX: real, gradY: real)
      requires 1 <= img.Length0 && 1 <= img.Length1 && -1 <= ky <= 1
      ensures gradX == sumX + SobelRowSum(img, Horizontal, y, x, ky, 2)
      ensures gradY == sumY + SobelRowSum(img, Vertical, y, x, ky, 2)
    {
      var py := ClampInt(y + ky, 0, img.Length0 - 1);
      gradX, gradY := sumX, sumY;
      var kx := -1;
      while kx <= 1
        invariant -1 <= kx <= 2
        invariant gradX == sumX + SobelRowSum(img, Horizontal, y, x, ky, kx)
        invariant gradY == sumY + SobelRowSum(img, Vertical, y, x, ky, kx)
      {
        var px := ClampInt(x + kx, 0, img.Length1 - 1);
        var pixel := img[py, px];
        assert pixel == Tap(img, y, x, ky, kx);
        gradX := gradX + SobelWeight(Horizontal, ky, kx) * pixel;
        gradY := gradY + SobelWeight(Vertical, ky, kx) * pixel;
        kx := kx + 1;
      }
    }

    /** Both clamped Sobel sums at one pixel, divided by 8. */
    method SobelPixel(img: array2<real>, y: int, x: int) returns (gradX: real, gradY: real)
      requires 1 <= img.Length0 && 1 <= img.Length1
      ensures gradX == Gradient(img, Horizontal, y, x) && gradY == Gradient(img, Vertical, y, x)
    {
      gradX, gradY := 0.0, 0.0;
      var ky := -1;
      while ky <= 1
        invariant -1 <= ky <= 2
        invariant gradX == SobelSum(img, Horizontal, y, x, ky) && gradY == SobelSum(img, Vertical, y, x, ky)
      {
        gradX, gradY := SobelRow(img, y, x, ky, gradX, gradY);
        ky := ky + 1;
      }
      gradX := gradX / 8.0;
      gradY := gradY / 8.0;
    }

    /** The inner pixel loop of `computeGradients`: row `y` of both planes. */
    method GradientRow(img: array2<real>, mag: array2<real>, ang: array2<real>, y: nat)
      requires 1 <= img.Length0 && 1 <= img.Length1 && y < img.Length0
      requires SameShape(mag, ang) && mag.Length0 == img.Length0 && mag.Length1 == img.Length1
      requires mag != ang && img != mag && img != ang
      modifies mag, ang
      ensures forall j :: 0 <= j < img.Length1 ==>
        && mag[y, j] == math.hypot(Gradient(img, Horizontal, y, j), Gradient(img, Vertical, y, j))
        && ang[y, j] == FoldAngle(math.atan2Degrees(Gradient(img, Vertical, y, j), Gradient(img, Horizontal, y, j)))
      ensures forall i, j :: 0 <= i < img.Length0 && 0 <= j < img.Length1 && i != y ==>
        mag[i, j] == old(mag[i, j]) && ang[i, j] == old(ang[i, j])
    {
      var x := 0;
      while x < img.Length1
        invariant 0 <= x <= img.Length1
        invariant forall j :: 0 <= j < x ==>
          && mag[y, j] == math.hypot(Gradient(img, Horizontal, y, j), Gradient(img, Vertical, y, j))
          && ang[y, j] == FoldAngle(math.atan2Degrees(Gradient(img, Vertical, y, j), Gradient(img, Horizontal, y, j)))
        invariant forall i, j :: 0 <= i < img.Length0 && 0 <= j < img.Length1 && i != y ==>
          mag[i, j] == old(mag[i, j]) && ang[i, j] == old(ang[i, j])
      {
        var gradX, gradY := SobelPixel(img, y, x);
        mag[y, x] := math.hypot(gradX, gradY);
        var angle := math.atan2Degrees(gradY, gradX);
        if angle < 0.0 {
          angle := angle + 180.0;
        }
        ang[y, x] := angle;
        x := x + 1;
      }
    }

    /** Fills the two gradient planes from `grayscaleImage`. */
    method ComputeGradients()
      requires 1 <= grayscaleImage.Length0 && 1 <= grayscaleImage.Length1
      modifies this`gradientMagnitudes, this`gradientAngles
      ensures fresh(gradientMagnitudes) && fresh(gradientAngles)
      ensures IsGradientsOf(gradientMagnitudes, gradientAngles, grayscaleImage, math)
    {
      var img := grayscaleImage;
      var height, width := img.Length0, img.Length1;
      var mag := new real[height, width]((_, _) => 0.0);
      var ang := new real[height, width]((_, _) => 0.0);
      var y := 0;
      while y < height
        invariant 0 <= y <= height
        invariant forall i, j :: 0 <= i < y && 0 <= j < width ==>
          && mag[i, j] == math.hypot(Gradient(img, Horizontal, i, j), Gradient(img, Vertical, i, j))
          && ang[i, j] == FoldAngle(math.atan2Degrees(Gradient(img, Vertical, i, j), Gradient(img, Horizontal, i, j)))
      {
        GradientRow(img, mag, ang, y);
        y := y + 1;
      }
      gradientMagnitudes, gradientAngles := mag, ang;
    }

    /** One pixel's soft vote (the binning statements of the pixel loop) into `hist[cy][cx]`,
        which holds `current` beforehand. */
    method VotePixel(hist: array3<real>, mag: array2<real>, ang: array2<real>, cy: nat, cx: nat, posY: nat, posX: nat, binWidth: real, ghost current: seq<real>)
      requires Valid() && SameShape(mag, ang)
      requires hist.Length2 == bins && binWidth == BinWidth(bins)
      requires cy < hist.Length0 && cx < hist.Length1
      requires posY < mag.Length0 && posX < mag.Length1
      requires HoldsCell(hist, cy, cx, current)
      modifies hist
      ensures HoldsCell(hist, cy, cx, Deposit(current, ang[posY, posX], mag[posY, posX], bins))
      ensures forall a, b, k :: 0 <= a < hist.Length0 && 0 <= b < hist.Length1 && 0 <= k < hist.Length2 && (a != cy || b != cx) ==>
        hist[a, b, k] == old(hist[a, b, k])
    {
      var magnitude := mag[posY, posX];
      var angle := ang[posY, posX];
      ghost var split := SoftBin(angle, bins);
      var bin := angle / binWidth;
      var binLow := bin.Floor % bins;
      var binHigh := (binLow + 1) % bins;
      var weightHigh := bin - binLow as real;
      var weightLow := 1.0 - weightHigh;
      assert binLow == split.low && binHigh == split.high;
      assert weightLow == split.weightLow && weightHigh == split.weightHigh;
      var shareLow, shareHigh := Share(magnitude, weightLow), Share(magnitude, weightHigh);
      ghost var once := current[binLow := current[binLow] + shareLow];
      ghost var twice := once[binHigh := once[binHigh] + shareHigh];
      assert twice == Vote(current, split.low, split.high, Share(magnitude, split.weightLow), Share(magnitude, split.weightHigh));
      assert twice == Deposit(current, angle, magnitude, bins);
      AddToBin(hist, cy, cx, binLow, shareLow, current);
      AddToBin(hist, cy, cx, binHigh, shareHigh, once);
    }

    /** Adds `amount` to bin `k` of `hist[cy][cx]`, which holds `current` beforehand. */
    static method AddToBin(hist: array3<real>, cy: nat, cx: nat, k: nat, amount: real, ghost current: seq<real>)
      requires k < hist.Length2 && HoldsCell(hist, cy, cx, current)
      modifies hist
      ensures HoldsCell(hist, cy, cx, current[k := current[k] + amount])
      ensures forall a, b, n :: 0 <= a < hist.Length0 && 0 <= b < hist.Length1 && 0 <= n < hist.Length2 && (a != cy || b != cx) ==>
        hist[a, b, n] == old(hist[a, b, n])
    {
      hist[cy, cx, k] := hist[cy, cx, k] + amount;
    }

    /** The votes of pixel row `y` of cell `(cy, cx)`, left to right. */
    method AccumulateRow(hist: array3<real>, mag: array2<real>, ang: array2<real>, cy: nat, cx: nat, y: nat, binWidth: real, ghost start: seq<real>)
      requires Valid() && SameShape(mag, ang)
      requires hist.Length2 == bins && binWidth == BinWidth(bins)
      requires cy < hist.Length0 && cx < hist.Length1 && y < cellSize
      requires CellInside(mag.Length0, mag.Length1, cellSize, cy, cx)
      requires HoldsCell(hist, cy, cx, start)
      modifies hist
      ensures HoldsCell(hist, cy, cx, RowVotes(start, mag, ang, cellSize, bins, cy, cx, y, cellSize))
      ensures forall a, b, k :: 0 <= a < hist.Length0 && 0 <= b < hist.Length1 && 0 <= k < hist.Length2 && (a != cy || b != cx) ==>
        hist[a, b, k] == old(hist[a, b, k])
    {
      var x := 0;
      while x < cellSize
        invariant 0 <= x <= cellSize
        invariant HoldsCell(hist, cy, cx, RowVotes(start, mag, ang, cellSize, bins, cy, cx, y, x))
        invariant forall a, b, k :: 0 <= a < hist.Length0 && 0 <= b < hist.Length1 && 0 <= k < hist.Length2 && (a != cy || b != cx) ==>
          hist[a, b, k] == old(hist[a, b, k])
      {
        var posX := cx * cellSize + x;
        var posY := cy * cellSize + y;
        VotePixel(hist, mag, ang, cy, cx, posY, posX, binWidth,
                  RowVotes(start, mag, ang, cellSize, bins, cy, cx, y, x));
        x := x + 1;
      }
    }

    /** The votes of the pixels of cell `(cy, cx)` into `hist[cy][cx]`. The
        source skips pixels outside the plane; `CellFits` shows there are none. */
    method AccumulateCell(hist: array3<real>, cy: nat, cx: nat, binWidth: real)
      requires Valid() && SameShape(gradientMagnitudes, gradientAngles)
      requires hist.Length0 == gradientMagnitudes.Length0 / cellSize
      requires hist.Length1 == gradientMagnitudes.Length1 / cellSize
      requires hist.Length2 == bins && binWidth == BinWidth(bins)
      requires HoldsCell(hist, cy, cx, Zeros(bins))
      modifies hist
      ensures CellInside(gradientMagnitudes.Length0, gradientMagnitudes.Length1, cellSize, cy, cx)
      ensures HoldsCell(hist, cy, cx, CellHistogram(gradientMagnitudes, gradientAngles, cellSize, bins, cy, cx, cellSize))
      ensures forall a, b, k :: 0 <= a < hist.Length0 && 0 <= b < hist.Length1 && 0 <= k < hist.Length2 && (a != cy || b != cx) ==>
        hist[a, b, k] == old(hist[a, b, k])
    {
      CellFits(gradientMagnitudes.Length0, cellSize, cy);
      CellFits(gradientMagnitudes.Length1, cellSize, cx);
      var y := 0;
      while y < cellSize
        invariant 0 <= y <= cellSize
        invariant HoldsCell(hist, cy, cx, CellHistogram(gradientMagnitudes, gradientAngles, cellSize, bins, cy, cx, y))
        invariant forall a, b, k :: 0 <= a < hist.Length0 && 0 <= b < hist.Length1 && 0 <= k < hist.Length2 && (a != cy || b != cx) ==>
          hist[a, b, k] == old(hist[a, b, k])
      {
        AccumulateRow(hist, gradientMagnitudes, gradientAngles, cy, cx, y, binWidth, CellHistogram(gradientMagnitudes, gradientAngles, cellSize, bins, cy, cx, y));
        y := y + 1;
      }
    }

    /** The histograms of cell row `cy`, left to right, into a zeroed row of `hist`. */
    method FillCellRow(hist: array3<real>, cy: nat, binWidth: real, ghost row: seq<seq<real>>)
      requires Valid() && SameShape(gradientMagnitudes, gradientAngles)
      requires hist.Length0 == gradientMagnitudes.Length0 / cellSize
      requires hist.Length1 == gradientMagnitudes.Length1 / cellSize
      requires hist.Length2 == bins && binWidth == BinWidth(bins) && cy < hist.Length0
      requires row == CellRow(gradientMagnitudes, gradientAngles, cellSize, bins, cy)
      requires forall b, k :: 0 <= b < hist.Length1 && 0 <= k < bins ==> hist[cy, b, k] == 0.0
      modifies hist
      ensures forall b, k :: 0 <= b < hist.Length1 && 0 <= k < bins ==> hist[cy, b, k] == row[b][k]
      ensures forall a, b, k :: 0 <= a < hist.Length0 && 0 <= b < hist.Length1 && 0 <= k < bins && a != cy ==>
        hist[a, b, k] == old(hist[a, b, k])
    {
      var cx := 0;
      while cx < hist.Length1
        invariant 0 <= cx <= hist.Length1
        invariant forall b, k :: 0 <= b < hist.Length1 && 0 <= k < bins ==>
          hist[cy, b, k] == if b < cx then row[b][k] else 0.0
        invariant forall a, b, k :: 0 <= a < hist.Length0 && 0 <= b < hist.Length1 && 0 <= k < bins && a != cy ==>
          hist[a, b, k] == old(hist[a, b, k])
      {
        AccumulateCell(hist, cy, cx, binWidth);
        cx := cx + 1;
      }
    }

    /** `cellHistograms`: every cell's histogram, cell rows top to bottom. */
    method CellHistograms() returns (hist: array3<real>)
      requires Valid() && SameShape(gradientMagnitudes, gradientAngles)
      ensures fresh(hist)
      ensures hist.Length0 == gradientMagnitudes.Length0 / cellSize
      ensures hist.Length1 == gradientMagnitudes.Length1 / cellSize
      ensures hist.Length2 == bins
      ensures HoldsGrid(hist, CellGrid(gradientMagnitudes, gradientAngles, cellSize, bins))
    {
      var cellsX := gradientMagnitudes.Length1 / cellSize;
      var cellsY := gradientMagnitudes.Length0 / cellSize;
      hist := new real[cellsY, cellsX, bins]((_, _, _) => 0.0);
      var binWidth := 180.0 / bins as real;
      ghost var grid := CellGrid(gradientMagnitudes, gradientAngles, cellSize, bins);
      var cy := 0;
      while cy < cellsY
        invariant 0 <= cy <= cellsY
        invariant forall a, b, k :: 0 <= a < cellsY && 0 <= b < cellsX && 0 <= k < bins ==>
          hist[a, b, k] == if a < cy then grid[a][b][k] else 0.0
      {
        FillCellRow(hist, cy, binWidth, grid[cy]);
        cy := cy + 1;
      }
    }

    /** One block's cells, copied `block[index++] = val` in `(dy, dx, k)` order. */
    method BuildBlock(hist: array3<real>, top: nat, left: nat, ghost g: seq<seq<seq<real>>>) returns (block: array<real>)
      requires 0 < bins && hist.Length2 == bins && HoldsGrid(hist, g)
      requires top + blockSize <= hist.Length0 && left + blockSize <= hist.Length1
      ensures fresh(block)
      ensures block[..] == RawBlock(g, hist.Length0, hist.Length1, bins, blockSize, top, left)
    {
      ghost var cells := BlockCells(g, hist.Length0, hist.Length1, bins, blockSize, top, left);
      ghost var full := RawBlock(g, hist.Length0, hist.Length1, bins, blockSize, top, left);
      assert full == Concat(cells);
      var blockHistogramSize := blockSize * blockSize * bins;
      block := new real[blockHistogramSize](_ => 0.0);
      var index := 0;
      var dy := 0;
      while dy < blockSize
        invariant 0 <= dy <= blockSize
        invariant index == |RowMajor(cells, dy, 0)|
        invariant forall i :: 0 <= i < index && i < block.Length ==> block[i] == full[i]
      {
        var dx := 0;
        while dx < blockSize
          invariant 0 <= dx <= blockSize
          invariant index == |RowMajor(cells, dy, dx)|
          invariant forall i :: 0 <= i < index && i < block.Length ==> block[i] == full[i]
        {
          RowMajorChunk(cells, dy, dx);
          var k := 0;
          while k < bins
            invariant 0 <= k <= bins
            invariant index == |RowMajor(cells, dy, dx)| + k
            invariant forall i :: 0 <= i < index && i < block.Length ==> block[i] == full[i]
          {
            block[index] := hist[top + dy, left + dx, k];
            index := index + 1;
            k := k + 1;
          }
          dx := dx + 1;
        }
        dy := dy + 1;
      }
      assert block[..] == full;
    }

    /** `norm += v * v` over a whole block. */
    method SquaredNorm(block: array<real>) returns (norm: real)
      ensures norm == SumSquares(block[..])
    {
      norm := 0.0;
      var i := 0;
      while i < block.Length
        invariant 0 <= i <= block.Length
        invariant norm == SumSquaresTo(block[..], i)
      {
        norm := norm + block[i] * block[i];
        i := i + 1;
      }
    }

    /** `block[i] /= norm`, followed by the clip when `clip` is set. */
    method DivideBlock(block: array<real>, norm: real, clip: bool)
      requires norm != 0.0
      modifies block
      ensures block[..] == DivideAndClip(old(block[..]), norm, clip)
    {
      ghost var original := block[..];
      ghost var target := DivideAndClip(original, norm, clip);
      var i := 0;
      while i < block.Length
        invariant 0 <= i <= block.Length
        invariant forall k :: 0 <= k < i ==> block[k] == target[k]
        invariant forall k :: i <= k < block.Length ==> block[k] == original[k]
      {
        block[i] := block[i] / norm;
        if clip && block[i] > ClipLimit {
          block[i] := ClipLimit;
        }
        assert block[i] == target[i];
        i := i + 1;
      }
    }

    /** L2 normalisation of one block in place; under L2-Hys, clipped at 0.2
        and normalised a second time. */
    method NormalizeBlock(block: array<real>)
      requires Valid() && math.SqrtPositive()
      modifies block
      ensures block[..] == Normalized(math, old(block[..]), useL2Hys)
    {
      ghost var original := block[..];
      var norm := SquaredNorm(block);
      norm := math.sqrt(norm + Epsilon);
      L2NormPositive(math, original);
      DivideBlock(block, norm, useL2Hys);
      if useL2Hys {
        ghost var first := block[..];
        norm := SquaredNorm(block);
        norm := math.sqrt(norm + Epsilon);
        L2NormPositive(math, first);
        DivideBlock(block, norm, false);
      }
    }

    /** `System.arraycopy(src, 0, dst, at, src.length)`. */
    static method ArrayCopy(src: array<real>, dst: array<real>, at: nat)
      requires at + src.Length <= dst.Length
      modifies dst
      ensures forall i :: 0 <= i < dst.Length ==>
        dst[i] == if at <= i < at + src.Length then old(src[i - at]) else old(dst[i])
    {
      forall i | at <= i < at + src.Length {
        dst[i] := src[i - at];
      }
    }

    /** One pass of the block loops: the block at `(top, left)` is built,
        normalised and copied into `hogVector` from `at` on. */
    method PlaceBlock(hist: array3<real>, hogVector: array<real>, top: nat, left: nat, at: nat,
                      ghost g: seq<seq<seq<real>>>, ghost content: seq<real>)
      requires Valid() && math.SqrtPositive() && hist.Length2 == bins && HoldsGrid(hist, g)
      requires top + blockSize <= hist.Length0 && left + blockSize <= hist.Length1
      requires content == Normalized(math, RawBlock(g, hist.Length0, hist.Length1, bins, blockSize, top, left), useL2Hys)
      requires at + |content| <= hogVector.Length
      modifies hogVector
      ensures forall i :: 0 <= i < hogVector.Length ==>
        hogVector[i] == if at <= i < at + |content| then content[i - at] else old(hogVector[i])
    {
      var block := BuildBlock(hist, top, left, g);
      NormalizeBlock(block);
      ArrayCopy(block, hogVector, at);
    }

    /** The inner block loop: the blocks of block row `top`, left to right. */
    method PlaceRow(hist: array3<real>, hogVector: array<real>, blocksX: nat, blocksY: nat, top: nat, at: nat,
                    ghost g: seq<seq<seq<real>>>, ghost blocks: seq<seq<seq<real>>>) returns (vectorIndex: nat)
      requires Valid() && math.SqrtPositive() && hist.Length2 == bins && HoldsGrid(hist, g)
      requires blocksX + blockSize == hist.Length1 + 1 && blocksY + blockSize == hist.Length0 + 1 && top < blocksY
      requires |blocks| == blocksY && Rectangular(blocks, blocksX, BlockLength(blockSize, bins))
      requires forall left :: 0 <= left < blocksX ==>
        blocks[top][left] == Normalized(math, RawBlock(g, hist.Length0, hist.Length1, bins, blockSize, top, left), useL2Hys)
      requires hogVector.Length == |Concat(blocks)| && at == |RowMajor(blocks, top, 0)| && at <= hogVector.Length
      requires forall i :: 0 <= i < at ==> hogVector[i] == Concat(blocks)[i]
      modifies hogVector
      ensures vectorIndex == |RowMajor(blocks, top + 1, 0)| && vectorIndex <= hogVector.Length
      ensures forall i :: 0 <= i < vectorIndex ==> hogVector[i] == Concat(blocks)[i]
    {
      ghost var desc := Concat(blocks);
      vectorIndex := at;
      RowMajorPrefix(blocks, top, 0);
      var left := 0;
      while left < blocksX
        invariant 0 <= left <= blocksX
        invariant vectorIndex == |RowMajor(blocks, top, left)| && vectorIndex <= hogVector.Length
        invariant forall i :: 0 <= i < vectorIndex ==> hogVector[i] == desc[i]
      {
        RowMajorChunk(blocks, top, left);
        ghost var content := blocks[top][left];
        ghost var before := hogVector[..];
        PlaceBlock(hist, hogVector, top, left, vectorIndex, g, content);
        forall i | 0 <= i < vectorIndex + |content|
          ensures hogVector[i] == desc[i]
        {
          if i < vectorIndex {
            assert hogVector[i] == before[i];
          }
        }
        vectorIndex := vectorIndex + blockSize * blockSize * bins;
        left := left + 1;
      }
    }

    /** The block loops: the blocks are placed one after the other, row by
        row, so that `hogVector` ends up as their row-major concatenation. */
    method AssembleBlocks(hist: array3<real>, hogVector: array<real>, blocksX: nat, blocksY: nat,
                          ghost g: seq<seq<seq<real>>>, ghost blocks: seq<seq<seq<real>>>)
      requires Valid() && math.SqrtPositive() && hist.Length2 == bins && HoldsGrid(hist, g)
      requires blocksX + blockSize == hist.Length1 + 1 && blocksY + blockSize == hist.Length0 + 1
      requires |blocks| == blocksY && Rectangular(blocks, blocksX, BlockLength(blockSize, bins))
      requires forall top, left :: 0 <= top < blocksY && 0 <= left < blocksX ==>
        blocks[top][left] == Normalized(math, RawBlock(g, hist.Length0, hist.Length1, bins, blockSize, top, left), useL2Hys)
      requires hogVector.Length == |Concat(blocks)|
      modifies hogVector
      ensures hogVector[..] == Concat(blocks)
    {
      var vectorIndex := 0;
      var top := 0;
      while top < blocksY
        invariant 0 <= top <= blocksY
        invariant vectorIndex == |RowMajor(blocks, top, 0)|
        invariant forall i :: 0 <= i < vectorIndex && i < hogVector.Length ==> hogVector[i] == Concat(blocks)[i]
      {
        RowMajorPrefix(blocks, top, 0);
        vectorIndex := PlaceRow(hist, hogVector, blocksX, blocksY, top, vectorIndex, g, blocks);
        top := top + 1;
      }
      RowMajorPrefix(blocks, top, 0);
      assert hogVector[..] == Concat(blocks);
    }

    /** `computeHOGDescriptor`: cell histograms, then the normalised blocks. */
    method ComputeHogDescriptor() returns (r: Outcome<array<real>>)
      requires Valid() && math.SqrtPositive() && SameShape(gradientMagnitudes, gradientAngles)
      requires gradientMagnitudes.Length0 == grayscaleImage.Length0 && gradientMagnitudes.Length1 == grayscaleImage.Length1
      ensures r.Fail? <==> DescriptorLength(grayscaleImage.Length0, grayscaleImage.Length1, cellSize, blockSize, bins) < 0
      ensures r.Fail? ==> r.error == NegativeArraySize
      ensures r.Ok? ==> fresh(r.value) && r.value.Length == DescriptorLength(grayscaleImage.Length0, grayscaleImage.Length1, cellSize, blockSize, bins)
      ensures r.Ok? && blockSize <= grayscaleImage.Length1 / cellSize + 1 && blockSize <= grayscaleImage.Length0 / cellSize + 1 ==>
        r.value[..] == Descriptor(math, useL2Hys, CellGrid(gradientMagnitudes, gradientAngles, cellSize, bins),
                                  grayscaleImage.Length0 / cellSize, grayscaleImage.Length1 / cellSize, bins, blockSize,
                                  grayscaleImage.Length1 / cellSize - blockSize + 1, grayscaleImage.Length0 / cellSize - blockSize + 1)
      ensures r.Ok? && (grayscaleImage.Length1 / cellSize + 1 < blockSize || grayscaleImage.Length0 / cellSize + 1 < blockSize) ==>
        forall i :: 0 <= i < r.value.Length ==> r.value[i] == 0.0
    {
      var height := grayscaleImage.Length0;
      var width := grayscaleImage.Length1;
      var cellsX := width / cellSize;
      var cellsY := height / cellSize;
      var hist := CellHistograms();
      var blocksX := cellsX - blockSize + 1;
      var blocksY := cellsY - blockSize + 1;
      var blockHistogramSize := blockSize * blockSize * bins;
      var length := blocksX * blocksY * blockHistogramSize;
      assert length == DescriptorLength(height, width, cellSize, blockSize, bins);
      if length < 0 {
        return Fail(NegativeArraySize);
      }
      var hogVector := new real[length](_ => 0.0);
      if 0 <= blocksX && 0 <= blocksY {
        FillDescriptor(hist, hogVector, blocksX, blocksY);
      }
      return Ok(hogVector);
    }

    /** The block loops of `computeHOGDescriptor` once the geometry is known to fit. */
    method FillDescriptor(hist: array3<real>, hogVector: array<real>, blocksX: nat, blocksY: nat)
      requires Valid() && math.SqrtPositive() && SameShape(gradientMagnitudes, gradientAngles)
      requires hist.Length0 == gradientMagnitudes.Length0 / cellSize && hist.Length1 == gradientMagnitudes.Length1 / cellSize
      requires hist.Length2 == bins && HoldsGrid(hist, CellGrid(gradientMagnitudes, gradientAngles, cellSize, bins))
      requires blocksX + blockSize == hist.Length1 + 1 && blocksY + blockSize == hist.Length0 + 1
      requires hogVector.Length == blocksX * blocksY * (blockSize * blockSize * bins)
      modifies hogVector
      ensures hogVector[..] == Descriptor(math, useL2Hys, CellGrid(gradientMagnitudes, gradientAngles, cellSize, bins),
                                          hist.Length0, hist.Length1, bins, blockSize, blocksX, blocksY)
    {
      ghost var g := CellGrid(gradientMagnitudes, gradientAngles, cellSize, bins);
      DescriptorSize(math, useL2Hys, g, hist.Length0, hist.Length1, bins, blockSize, blocksX, blocksY);
      AssembleBlocks(hist, hogVector, blocksX, blocksY, g, Blocks(math, useL2Hys, g, hist.Length0, hist.Length1, bins, blockSize, blocksX, blocksY));
    }

    /** The first stages of `ExtractHog`: optional gamma correction, grayscale
        conversion and optional smoothing, leaving the result in `grayscaleImage`. */
    method Preprocess(image: array2<Rgb>) returns (ghost luma: array2<real>)
      requires Valid() && math.SqrtValid() && ColourImage(image) && 1 <= image.Length0
      modifies this`grayscaleImage
      ensures IsGrayscaleOf(luma, image, math, gammaCorrection)
      ensures useGaussianBlur ==> IsBlurOf(grayscaleImage, luma)
      ensures !useGaussianBlur ==> grayscaleImage == luma
    {
      var source := image;
      if gammaCorrection {
        source := ApplyGammaCorrection(image);
      }
      var gray := ConvertToGrayscale(source);
      luma := gray;
      grayscaleImage := gray;
      if useGaussianBlur {
        grayscaleImage := ApplyGaussianBlur(grayscaleImage);
      }
    }

    /** `extractHOG` on an image already resized to 128 by 128. */
    method ExtractHog(image: array2<Rgb>) returns (r: Outcome<array<real>>, ghost luma: array2<real>)
      requires Valid() && math.SqrtValid() && ColourImage(image) && image.Length0 == 128 && image.Length1 == 128
      modifies this`grayscaleImage, this`gradientMagnitudes, this`gradientAngles
      ensures IsGrayscaleOf(luma, image, math, gammaCorrection)
      ensures useGaussianBlur ==> IsBlurOf(grayscaleImage, luma)
      ensures !useGaussianBlur ==> grayscaleImage == luma
      ensures IsGradientsOf(gradientMagnitudes, gradientAngles, grayscaleImage, math)
      ensures r.Fail? <==> DescriptorLength(128, 128, cellSize, blockSize, bins) < 0
      ensures r.Ok? ==> r.value.Length == DescriptorLength(128, 128, cellSize, blockSize, bins)
      ensures r.Ok? && blockSize <= 128 / cellSize + 1 ==>
        r.value[..] == Descriptor(math, useL2Hys, CellGrid(gradientMagnitudes, gradientAngles, cellSize, bins),
                                  128 / cellSize, 128 / cellSize, bins, blockSize,
                                  128 / cellSize - blockSize + 1, 128 / cellSize - blockSize + 1)
      ensures cellSize == 8 && blockSize == 2 && bins == 9 ==> r.Ok? && r.value.Length == 8100
    {
      luma := Preprocess(image);
      ComputeGradients();
      SqrtValidIsPositive(math);
      r := ComputeHogDescriptor();
      DefaultDescriptorLength();
    }
  }
}
