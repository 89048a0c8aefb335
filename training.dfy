/** Training-data preparation (src/Utils/TrainingUtility.java): column-wise
    z-scoring of the feature matrix, the image-file name filter, and the
    assembly of the positive and negative samples into one labelled set.
    Directory listing, image decoding and HOG extraction are not modelled:
    a folder listing is given as a sequence of entries, each carrying the
    descriptor its image would produce, or none when the image cannot be
    read. */
module Training {
  import opened Numerics

  // ---------------------------------------------------------------------
  // Column statistics (lines 27-61)
  // ---------------------------------------------------------------------

  /** The sum of a sequence, left to right. */
  function Sum(xs: seq<real>): real {
    if xs == [] then 0.0 else Sum(xs[..|xs| - 1]) + xs[|xs| - 1]
  }

  /** Column `j` of `rows`; every row must have an entry `j`. */
  function Column(rows: seq<seq<real>>, j: nat): (r: seq<real>)
    requires forall i :: 0 <= i < |rows| ==> j < |rows[i]|
    ensures |r| == |rows|
  {
    seq(|rows|, i requires 0 <= i < |rows| => rows[i][j])
  }

  /** Lines 33-39: the column mean, `sum / numSamples`. */
  function Mean(col: seq<real>): real
    requires col != []
  {
    Sum(col) / |col| as real
  }

  function Square(v: real): (r: real)
    ensures 0.0 <= r && (v != 0.0 ==> 0.0 < r)
  {
    if v < 0.0 then ProductPos(-v, -v, v * v); v * v
    else if v > 0.0 then ProductPos(v, v, v * v); v * v
    else v * v
  }

  /** The squared deviations from `c`. */
  function SquaredDeviations(col: seq<real>, c: real): (r: seq<real>)
    ensures |r| == |col|
  {
    seq(|col|, i requires 0 <= i < |col| => Square(col[i] - c))
  }

  /** Lines 41-51: the population standard deviation (divisor
      `numSamples`), replaced by 1.0 when it is zero. */
  function Std(col: seq<real>, t: Transcendentals): (r: real)
    requires col != []
    ensures r != 0.0
  {
    var s := t.sqrt(Sum(SquaredDeviations(col, Mean(col))) / |col| as real);
    if s == 0.0 then 1.0 else s
  }

  /** Every column is standardised by `(x - c) / d`. */
  function Standardized(col: seq<real>, c: real, d: real): (r: seq<real>)
    requires d != 0.0
    ensures |r| == |col|
  {
    seq(|col|, i requires 0 <= i < |col| => (col[i] - c) / d)
  }

  /** At least one sample, and every row has at least as many entries as
      the first (`numFeatures = features[0].length`, line 29). */
  predicate WellShaped(features: seq<seq<real>>) {
    features != [] && forall i :: 0 <= i < |features| ==> |features[0]| <= |features[i]|
  }

  /** The matrix `normalizeFeatures` returns (lines 53-58). */
  function Normalized(features: seq<seq<real>>, t: Transcendentals): (r: seq<seq<real>>)
    requires WellShaped(features)
    ensures |r| == |features| && forall i :: 0 <= i < |r| ==> |r[i]| == |features[0]|
  {
    seq(|features|, i requires 0 <= i < |features| =>
      seq(|features[0]|, j requires 0 <= j < |features[0]| =>
        (features[i][j] - Mean(Column(features, j))) / Std(Column(features, j), t)))
  }

  /** `normalizeFeatures` either returns the normalised matrix or throws
      `ArrayIndexOutOfBoundsException`: on an empty input (`features[0]`),
      or when some row is shorter than the first. */
  function NormalizeOutcome(features: seq<seq<real>>, t: Transcendentals): Outcome<seq<seq<real>>> {
    if WellShaped(features) then Ok(Normalized(features, t)) else Fail(IndexOutOfBounds)
  }

  // ---------------------------------------------------------------------
  // Properties of the normalisation
  // ---------------------------------------------------------------------

  lemma {:induction false} SumStandardized(col: seq<real>, c: real, d: real)
    requires d != 0.0
    ensures Sum(Standardized(col, c, d)) == (Sum(col) - |col| as real * c) / d
  {
    if col != [] {
      var front := col[..|col| - 1];
      var scaled := Standardized(col, c, d);
      SumStandardized(front, c, d);
      assert scaled[..|col| - 1] == Standardized(front, c, d);
      assert Sum(scaled) == Sum(Standardized(front, c, d)) + (col[|col| - 1] - c) / d;
      assert Sum(col) == Sum(front) + col[|col| - 1];
      assert |col| as real == |front| as real + 1.0;
      ShiftStep(Sum(front), col[|col| - 1], |front| as real, c, d);
    }
  }

  lemma ShiftStep(sum: real, x: real, n: real, c: real, d: real)
    requires d != 0.0
    ensures (sum - n * c) / d + (x - c) / d == (sum + x - (n + 1.0) * c) / d
  {
  }

  lemma {:induction false} SumScaledSquares(col: seq<real>, c: real, d: real)
    requires d != 0.0
    ensures Sum(SquaredDeviations(Standardized(col, c, d), 0.0)) == Sum(SquaredDeviations(col, c)) / Square(d)
  {
    if col != [] {
      var front := col[..|col| - 1];
      SumScaledSquares(front, c, d);
      assert Standardized(col, c, d)[..|col| - 1] == Standardized(front, c, d);
      assert SquaredDeviations(Standardized(col, c, d), 0.0)[..|col| - 1] == SquaredDeviations(Standardized(front, c, d), 0.0);
      assert SquaredDeviations(col, c)[..|col| - 1] == SquaredDeviations(front, c);
      SquareStep(Sum(SquaredDeviations(front, c)), col[|col| - 1] - c, d);
    }
  }

  lemma SquareStep(sum: real, e: real, d: real)
    requires d != 0.0
    ensures sum / Square(d) + Square(e / d - 0.0) == (sum + Square(e)) / Square(d)
  {
    var q := e / d;
    assert q * d == e;
    assert Square(e) == Square(q) * Square(d);
    assert Square(d) != 0.0;
  }

  /** Column `j` of the result is column `j` of the input, standardised by
      the column's mean and (corrected) standard deviation. */
  lemma NormalizedColumn(features: seq<seq<real>>, t: Transcendentals, j: nat)
    requires WellShaped(features) && j < |features[0]|
    ensures var col := Column(features, j);
            Column(Normalized(features, t), j) == Standardized(col, Mean(col), Std(col, t))
  {
  }

  /** Each normalised column sums to zero (in exact arithmetic). */
  lemma ColumnSumsZero(features: seq<seq<real>>, t: Transcendentals, j: nat)
    requires WellShaped(features) && j < |features[0]|
    ensures Sum(Column(Normalized(features, t), j)) == 0.0
  {
    var col := Column(features, j);
    NormalizedColumn(features, t, j);
    CenteredSumZero(col, Std(col, t));
  }

  /** A column minus its mean, scaled by any non-zero factor, sums to zero. */
  lemma CenteredSumZero(col: seq<real>, d: real)
    requires col != [] && d != 0.0
    ensures Sum(Standardized(col, Mean(col), d)) == 0.0
  {
    SumStandardized(col, Mean(col), d);
    MeanCancels(Sum(col), |col| as real, Mean(col), d);
  }

  lemma MeanCancels(sum: real, n: real, m: real, d: real)
    requires 0.0 < n && d != 0.0 && m == sum / n
    ensures (sum - n * m) / d == 0.0
  {
    assert n * m == sum;
  }

  lemma ProductQuotient(n: real, c: real)
    requires n != 0.0
    ensures (n * c) / n == c
  {
  }

  lemma {:induction false} SumConstant(col: seq<real>, c: real)
    requires forall i :: 0 <= i < |col| ==> col[i] == c
    ensures Sum(col) == |col| as real * c
  {
    if col != [] {
      SumConstant(col[..|col| - 1], c);
    }
  }

  lemma {:induction false} SumZeros(col: seq<real>)
    requires forall i :: 0 <= i < |col| ==> col[i] == 0.0
    ensures Sum(col) == 0.0
  {
    if col != [] {
      SumZeros(col[..|col| - 1]);
    }
  }

  /** A constant column has zero spread, so its standard deviation is
      replaced by 1.0 and it comes out all zeros. */
  lemma ConstantColumn(features: seq<seq<real>>, t: Transcendentals, j: nat)
    requires t.SqrtValid() && WellShaped(features) && j < |features[0]|
    requires forall i :: 0 <= i < |features| ==> features[i][j] == features[0][j]
    ensures Std(Column(features, j), t) == 1.0
    ensures forall i :: 0 <= i < |features| ==> Normalized(features, t)[i][j] == 0.0
  {
    var col := Column(features, j);
    var c := features[0][j];
    SumConstant(col, c);
    var n := |col| as real;
    assert Mean(col) == c by {
      ProductQuotient(n, c);
    }
    var deviations := SquaredDeviations(col, c);
    SumZeros(deviations);
    assert Sum(deviations) / n == 0.0;
    SqrtZeroIff(t, 0.0);
  }

  /** The spread of a column that is not constant is positive. */
  lemma {:induction false} DeviationsPositive(col: seq<real>, c: real, k: int)
    requires 0 <= k < |col| && col[k] != c
    ensures 0.0 < Sum(SquaredDeviations(col, c))
  {
    var front := col[..|col| - 1];
    var e := col[|col| - 1] - c;
    assert SquaredDeviations(col, c)[..|col| - 1] == SquaredDeviations(front, c);
    SquareNonneg(e, Square(e));
    if k < |front| {
      DeviationsPositive(front, c, k);
    } else {
      DeviationsNonneg(front, c);
      assert e != 0.0;
      if e > 0.0 { ProductPos(e, e, Square(e)); } else { ProductPos(-e, -e, Square(e)); }
    }
  }

  lemma {:induction false} DeviationsNonneg(col: seq<real>, c: real)
    ensures 0.0 <= Sum(SquaredDeviations(col, c))
  {
    if col != [] {
      var front := col[..|col| - 1];
      var e := col[|col| - 1] - c;
      assert SquaredDeviations(col, c)[..|col| - 1] == SquaredDeviations(front, c);
      DeviationsNonneg(front, c);
      SquareNonneg(e, Square(e));
    }
  }

  /** A column that is not constant comes out with mean zero and population
      variance one: its squares sum to `numSamples`, not `numSamples - 1`,
      because the divisor of the standard deviation is `numSamples`. */
  lemma UnitVariance(features: seq<seq<real>>, t: Transcendentals, j: nat, k: int)
    requires t.SqrtValid() && WellShaped(features) && j < |features[0]|
    requires 0 <= k < |features| && features[k][j] != features[0][j]
    ensures Sum(SquaredDeviations(Column(Normalized(features, t), j), 0.0)) == |features| as real
  {
    var col := Column(features, j);
    var spread := Sum(SquaredDeviations(col, Mean(col)));
    var n := |col| as real;
    VaryingSpread(col, t, k);
    NormalizedColumn(features, t, j);
    SumScaledSquares(col, Mean(col), Std(col, t));
    VarianceCancels(spread, n, spread / n, Square(Std(col, t)));
  }

  /** A column with two different entries has a positive spread, and its
      standard deviation squares back to the variance. */
  lemma VaryingSpread(col: seq<real>, t: Transcendentals, k: int)
    requires t.SqrtValid() && 0 <= k < |col| && col[k] != col[0]
    ensures 0.0 < Sum(SquaredDeviations(col, Mean(col)))
    ensures Square(Std(col, t)) == Sum(SquaredDeviations(col, Mean(col))) / |col| as real
  {
    var m := Mean(col);
    var spread := Sum(SquaredDeviations(col, m));
    var n := |col| as real;
    if col[k] == m {
      DeviationsPositive(col, m, 0);
    } else {
      DeviationsPositive(col, m, k);
    }
    var v := spread / n;
    assert 0.0 < v;
    var s := t.sqrt(v);
    SqrtZeroIff(t, v);
    assert Square(s) == v && Std(col, t) == s;
  }

  lemma VarianceCancels(spread: real, n: real, v: real, ss: real)
    requires 0.0 < spread && 0.0 < n && v == spread / n && ss == v
    ensures spread / ss == n
  {
  }

  // ---------------------------------------------------------------------
  // The loops of lines 27-61
  // ---------------------------------------------------------------------

  /** Lines 34-37 for column `j`: `None` when a row has no entry `j`
      (`ArrayIndexOutOfBoundsException`). */
  method ColumnSum(features: seq<seq<real>>, j: nat) returns (sum: Option<real>)
    ensures sum.None? <==> exists i :: 0 <= i < |features| && |features[i]| <= j
    ensures sum.Some? ==> (forall i :: 0 <= i < |features| ==> j < |features[i]|) && sum.value == Sum(Column(features, j))
  {
    var s := 0.0;
    var i := 0;
    while i < |features|
      invariant 0 <= i <= |features|
      invariant forall k :: 0 <= k < i ==> j < |features[k]|
      invariant s == Sum(Column(features[..i], j))
    {
      if |features[i]| <= j {
        return None;
      }
      assert Column(features[..i + 1], j)[..i] == Column(features[..i], j);
      s := s + features[i][j];
      i := i + 1;
    }
    assert features[..i] == features;
    sum := Some(s);
  }

  /** Lines 43-46 for column `j`: the sum of squared deviations from `mean`. */
  method ColumnSpread(features: seq<seq<real>>, j: nat, mean: real) returns (sumSq: real)
    requires forall i :: 0 <= i < |features| ==> j < |features[i]|
    ensures sumSq == Sum(SquaredDeviations(Column(features, j), mean))
  {
    sumSq := 0.0;
    var i := 0;
    while i < |features|
      invariant 0 <= i <= |features|
      invariant sumSq == Sum(SquaredDeviations(Column(features[..i], j), mean))
    {
      assert SquaredDeviations(Column(features[..i + 1], j), mean)[..i] == SquaredDeviations(Column(features[..i], j), mean);
      var diff := features[i][j] - mean;
      sumSq := sumSq + Square(diff);
      i := i + 1;
    }
    assert features[..i] == features;
  }

  /** The column means and the corrected standard deviations. */
  function Means(features: seq<seq<real>>): (r: seq<real>)
    requires WellShaped(features)
    ensures |r| == |features[0]|
  {
    seq(|features[0]|, j requires 0 <= j < |features[0]| => Mean(Column(features, j)))
  }

  function Stds(features: seq<seq<real>>, t: Transcendentals): (r: seq<real>)
    requires WellShaped(features)
    ensures |r| == |features[0]|
  {
    seq(|features[0]|, j requires 0 <= j < |features[0]| => Std(Column(features, j), t))
  }

  /** Lines 33-39: the means, or `false` when a row is too short. */
  method ComputeMeans(features: seq<seq<real>>, means: array<real>) returns (ok: bool)
    requires features != [] && means.Length == |features[0]|
    modifies means
    ensures ok <==> WellShaped(features)
    ensures ok ==> means[..] == Means(features)
  {
    var j := 0;
    while j < means.Length
      invariant 0 <= j <= means.Length
      invariant forall i :: 0 <= i < |features| ==> j <= |features[i]|
      invariant forall k :: 0 <= k < j ==> means[k] == Mean(Column(features, k))
    {
      var sum := ColumnSum(features, j);
      if sum.None? {
        return false;
      }
      means[j] := sum.value / |features| as real;
      j := j + 1;
    }
    return true;
  }

  /** Lines 41-51. */
  method ComputeStds(features: seq<seq<real>>, means: array<real>, stds: array<real>, t: Transcendentals)
    requires WellShaped(features) && means[..] == Means(features) && stds.Length == |features[0]|
    requires means != stds
    modifies stds
    ensures stds[..] == Stds(features, t)
  {
    var j := 0;
    while j < stds.Length
      invariant 0 <= j <= stds.Length
      invariant means[..] == Means(features)
      invariant forall k :: 0 <= k < j ==> stds[k] == Std(Column(features, k), t)
    {
      var sumSq := ColumnSpread(features, j, means[j]);
      stds[j] := t.sqrt(sumSq / |features| as real);
      if stds[j] == 0.0 {
        stds[j] := 1.0;
      }
      j := j + 1;
    }
  }

  /** Lines 55-57 for one row. */
  method NormalizeRow(row: seq<real>, means: seq<real>, stds: seq<real>) returns (out: seq<real>)
    requires |means| == |stds| <= |row|
    requires forall j :: 0 <= j < |stds| ==> stds[j] != 0.0
    ensures |out| == |means|
    ensures forall j :: 0 <= j < |out| ==> out[j] == (row[j] - means[j]) / stds[j]
  {
    out := [];
    var j := 0;
    while j < |means|
      invariant 0 <= j <= |means| && |out| == j
      invariant forall k :: 0 <= k < j ==> out[k] == (row[k] - means[k]) / stds[k]
    {
      out := out + [(row[j] - means[j]) / stds[j]];
      j := j + 1;
    }
  }

  /** Lines 53-58. */
  method NormalizeRows(features: seq<seq<real>>, means: seq<real>, stds: seq<real>, t: Transcendentals) returns (normalized: seq<seq<real>>)
    requires WellShaped(features) && means == Means(features) && stds == Stds(features, t)
    ensures normalized == Normalized(features, t)
  {
    normalized := [];
    var i := 0;
    while i < |features|
      invariant 0 <= i <= |features| && |normalized| == i
      invariant forall k :: 0 <= k < i ==> normalized[k] == Normalized(features, t)[k]
    {
      var row := NormalizeRow(features[i], means, stds);
      assert row == Normalized(features, t)[i];
      normalized := normalized + [row];
      i := i + 1;
    }
  }

  /** Lines 27-61. */
  method NormalizeFeatures(features: seq<seq<real>>, t: Transcendentals) returns (result: Outcome<seq<seq<real>>>)
    ensures result == NormalizeOutcome(features, t)
  {
    if |features| == 0 {
      return Fail(IndexOutOfBounds);
    }
    var numFeatures := |features[0]|;
    var means := new real[numFeatures];
    var stds := new real[numFeatures];
    var ok := ComputeMeans(features, means);
    if !ok {
      return Fail(IndexOutOfBounds);
    }
    ComputeStds(features, means, stds, t);
    var normalized := NormalizeRows(features, means[..], stds[..], t);
    return Ok(normalized);
  }

  // ---------------------------------------------------------------------
  // The image-name filter (lines 117-120)
  // ---------------------------------------------------------------------

  /** `Character.toLowerCase` on the ASCII letters. */
  function LowerChar(c: char): char {
    if 'A' <= c <= 'Z' then (c as int - 'A' as int + 'a' as int) as char else c
  }

  function ToLower(s: string): (r: string)
    ensures |r| == |s|
  {
    seq(|s|, i requires 0 <= i < |s| => LowerChar(s[i]))
  }

  predicate EndsWith(s: string, suffix: string) {
    |suffix| <= |s| && s[|s| - |suffix|..] == suffix
  }

  const ImageExtensions: set<string> := {".jpg", ".jpeg", ".png", ".bmp"}

  /** Line 118-119. */
  predicate IsImageFile(name: string) {
    var lower := ToLower(name);
    EndsWith(lower, ".jpg") || EndsWith(lower, ".jpeg") || EndsWith(lower, ".png") || EndsWith(lower, ".bmp")
  }

  lemma ToLowerSuffix(name: string, k: int)
    requires 0 <= k <= |name|
    ensures ToLower(name[k..]) == ToLower(name)[k..]
  {
  }

  lemma ExtensionWitness(name: string, ext: string)
    requires ext in ImageExtensions && EndsWith(ToLower(name), ext)
    ensures exists k :: 0 <= k <= |name| && ToLower(name[k..]) in ImageExtensions
  {
    var k := |name| - |ext|;
    ToLowerSuffix(name, k);
    assert ToLower(name[k..]) == ext;
  }

  lemma EndsWithExtension(lower: string, k: int)
    requires 0 <= k <= |lower| && lower[k..] in ImageExtensions
    ensures EndsWith(lower, ".jpg") || EndsWith(lower, ".jpeg") || EndsWith(lower, ".png") || EndsWith(lower, ".bmp")
  {
    var ext := lower[k..];
    assert k == |lower| - |ext|;
    if ext == ".jpg" {
      assert EndsWith(lower, ".jpg");
    } else if ext == ".jpeg" {
      assert EndsWith(lower, ".jpeg");
    } else if ext == ".png" {
      assert EndsWith(lower, ".png");
    } else {
      assert EndsWith(lower, ".bmp");
    }
  }

  /** A name is an image name exactly when it splits into a stem and an
      extension that lower-cases to `.jpg`, `.jpeg`, `.png` or `.bmp`; the
      stem may be empty. */
  lemma IsImageFileIff(name: string)
    ensures IsImageFile(name) <==>
              exists k :: 0 <= k <= |name| && ToLower(name[k..]) in ImageExtensions
  {
    var lower := ToLower(name);
    if EndsWith(lower, ".jpg") {
      ExtensionWitness(name, ".jpg");
    } else if EndsWith(lower, ".jpeg") {
      ExtensionWitness(name, ".jpeg");
    } else if EndsWith(lower, ".png") {
      ExtensionWitness(name, ".png");
    } else if EndsWith(lower, ".bmp") {
      ExtensionWitness(name, ".bmp");
    }
    if exists k :: 0 <= k <= |name| && ToLower(name[k..]) in ImageExtensions {
      var k :| 0 <= k <= |name| && ToLower(name[k..]) in ImageExtensions;
      ToLowerSuffix(name, k);
      EndsWithExtension(lower, k);
    }
  }

  /** Lower-casing first changes nothing: the test ignores case. */
  lemma IsImageFileIgnoresCase(name: string)
    ensures IsImageFile(ToLower(name)) == IsImageFile(name)
  {
    assert ToLower(ToLower(name)) == ToLower(name);
  }

  // ---------------------------------------------------------------------
  // Assembling the training set (lines 63-115)
  // ---------------------------------------------------------------------

  /** An entry of a folder listing: its name, whether it is a regular file,
      and the HOG descriptor of its image (`None` when `ImageIO.read`
      returns null or fails). */
  datatype FileEntry = FileEntry(name: string, isFile: bool, descriptor: Option<seq<real>>)

  datatype TrainingSet = TrainingSet(features: seq<seq<real>>, labels: seq<int>)

  /** Lines 80-82 and 100-102: the entry contributes a sample. */
  predicate Accepted(file: FileEntry) {
    file.isFile && IsImageFile(file.name) && file.descriptor.Some?
  }

  /** The descriptors of the accepted entries, in listing order. */
  function Samples(files: seq<FileEntry>): (r: seq<seq<real>>)
    ensures |r| <= |files|
  {
    if files == [] then []
    else
      var last := files[|files| - 1];
      Samples(files[..|files| - 1]) + (if Accepted(last) then [last.descriptor.value] else [])
  }

  /** Line 110: `positives` labels 1 followed by `negatives` labels -1. */
  function Labels(positives: nat, negatives: nat): (r: seq<int>)
    ensures |r| == positives + negatives
  {
    seq(positives + negatives, k => if k < positives then 1 else -1)
  }

  /** What `loadTrainingData` returns or throws, given the two folder
      listings (`None`: `listFiles()` returned null). */
  function LoadOutcome(positive: Option<seq<FileEntry>>, negative: Option<seq<FileEntry>>, t: Transcendentals): Outcome<TrainingSet> {
    if positive.None? || negative.None? then Fail(FolderMissing)
    else
      var pos := Samples(positive.value);
      var neg := Samples(negative.value);
      match NormalizeOutcome(pos + neg, t)
      case Fail(e) => Fail(e)
      case Ok(normalized) => Ok(TrainingSet(normalized, Labels(|pos|, |neg|)))
  }

  /** Every positive sample precedes every negative one, the labels are
      the SVM's `+1`/`-1`, and there is one label per feature row. */
  lemma LoadedSetShape(positive: Option<seq<FileEntry>>, negative: Option<seq<FileEntry>>, t: Transcendentals)
    requires LoadOutcome(positive, negative, t).Ok?
    ensures var loaded := LoadOutcome(positive, negative, t).value;
            && |loaded.features| == |loaded.labels| == |Samples(positive.value)| + |Samples(negative.value)|
            && (forall k :: 0 <= k < |Samples(positive.value)| ==> loaded.labels[k] == 1)
            && (forall k :: |Samples(positive.value)| <= k < |loaded.labels| ==> loaded.labels[k] == -1)
  {
  }

  /** The training set exists exactly when both folders exist and at least
      one image was accepted (an empty set makes `normalizeFeatures` read
      `features[0]` of an empty array). */
  lemma LoadFailsIff(positive: Option<seq<FileEntry>>, negative: Option<seq<FileEntry>>, t: Transcendentals, d: nat)
    requires positive.Some? ==> DescriptorsOfLength(positive.value, d)
    requires negative.Some? ==> DescriptorsOfLength(negative.value, d)
    ensures LoadOutcome(positive, negative, t).Ok? <==>
              positive.Some? && negative.Some? && Samples(positive.value) + Samples(negative.value) != []
  {
    if positive.Some? && negative.Some? {
      var all := Samples(positive.value) + Samples(negative.value);
      SamplesLength(positive.value, d);
      SamplesLength(negative.value, d);
      if all != [] {
        assert all[0] in all;
        assert forall i :: 0 <= i < |all| ==> all[i] in all;
        assert WellShaped(all);
      }
    }
  }

  /** Every readable image of the listing yields a descriptor of length `d`
      (the HOG extractor resizes every image to the same size). */
  ghost predicate DescriptorsOfLength(files: seq<FileEntry>, d: nat) {
    forall f :: f in files && Accepted(f) ==> |f.descriptor.value| == d
  }

  lemma {:induction false} SamplesLength(files: seq<FileEntry>, d: nat)
    requires DescriptorsOfLength(files, d)
    ensures forall sample :: sample in Samples(files) ==> |sample| == d
  {
    if files != [] {
      var front := files[..|files| - 1];
      assert forall f :: f in front ==> f in files;
      SamplesLength(front, d);
      assert files[|files| - 1] in files;
    }
  }

  /** Lines 79-87 or 99-107: the samples of one listing, each appended
      with `label`. */
  method CollectSamples(files: seq<FileEntry>, tag: int) returns (samples: seq<seq<real>>, labels: seq<int>)
    ensures samples == Samples(files)
    ensures labels == seq(|samples|, _ => tag)
  {
    samples, labels := [], [];
    var k := 0;
    while k < |files|
      invariant 0 <= k <= |files|
      invariant samples == Samples(files[..k])
      invariant labels == seq(|samples|, _ => tag)
    {
      assert files[..k + 1][..k] == files[..k];
      var file := files[k];
      if file.isFile && IsImageFile(file.name) {
        match file.descriptor
        case None =>
        case Some(features) =>
          samples := samples + [features];
          labels := labels + [tag];
      }
      k := k + 1;
    }
    assert files[..k] == files;
  }

  /** Lines 63-115. */
  method LoadTrainingData(positive: Option<seq<FileEntry>>, negative: Option<seq<FileEntry>>, t: Transcendentals)
      returns (result: Outcome<TrainingSet>)
    ensures result == LoadOutcome(positive, negative, t)
  {
    if positive.None? {
      return Fail(FolderMissing);
    }
    var featureList, labelList := CollectSamples(positive.value, 1);
    if negative.None? {
      return Fail(FolderMissing);
    }
    var negatives, negativeLabels := CollectSamples(negative.value, -1);
    featureList := featureList + negatives;
    labelList := labelList + negativeLabels;
    assert labelList == Labels(|featureList| - |negatives|, |negatives|);
    var normalized := NormalizeFeatures(featureList, t);
    match normalized
    case Fail(e) =>
      return Fail(e);
    case Ok(matrix) =>
      return Ok(TrainingSet(matrix, labelList));
  }
}
