/** The multi-scale sliding-window detector (src/Utils/SVMTester.java):
    windows of 128x128 pixels every 32 pixels in the image scaled by 1.0,
    0.9, 0.8, 0.7 and 0.6, positive windows mapped back to the original
    image, greedy merging of nearby detections, and the clamp applied to a
    detection before it is cropped. The classifier's response to a window
    and the pixels of the scaled image are not modelled: `score(s, x, y)`
    stands for the classifier's score of the window at `(x, y)` of the image
    scaled by `s`. */
module Detector {
  import opened Numerics
  import opened Clustering

  /** `WINDOW_SIZE` and `STEP_SIZE` (lines 19-20). */
  const WindowSize: int := 128
  const StepSize: int := 32
  /** The smallest scale tried (line 34) and the decrement (line 62). */
  const MinScale: real := 0.6
  const ScaleStep: real := 0.1
  /** The centre-distance threshold passed to the clustering (line 65). */
  const DistanceThreshold: real := 150.0

  type Score = (real, int, int) -> real

  // ---------------------------------------------------------------------
  // Windows
  // ---------------------------------------------------------------------

  /** How many window positions the loops of lines 41-42 visit along an
      axis of `extent` pixels. */
  function WindowCount(extent: int): (r: nat)
    ensures extent < WindowSize ==> r == 0
    ensures extent >= WindowSize ==> r == (extent - WindowSize) / StepSize + 1
  {
    if extent < WindowSize then 0 else (extent - WindowSize) / StepSize + 1
  }

  /** The window offsets `0, 32, 64, ...` along an axis of `extent` pixels. */
  function Offsets(extent: int): seq<int> {
    seq(WindowCount(extent), k => StepSize * k)
  }

  /** The offsets are exactly the multiples of 32 at which a whole window
      fits, in increasing order. */
  lemma OffsetsExact(extent: int, o: int)
    ensures o in Offsets(extent) <==> 0 <= o && o % StepSize == 0 && o + WindowSize <= extent
    ensures forall k :: 0 <= k < |Offsets(extent)| ==> Offsets(extent)[k] == StepSize * k
  {
    var offsets := Offsets(extent);
    if 0 <= o && o % StepSize == 0 && o + WindowSize <= extent {
      var k := o / StepSize;
      assert StepSize * k == o;
      assert k < WindowCount(extent);
      assert offsets[k] == o;
    }
    if o in offsets {
      var k :| 0 <= k < |offsets| && offsets[k] == o;
      assert k <= (extent - WindowSize) / StepSize;
      assert StepSize * k <= StepSize * ((extent - WindowSize) / StepSize);
    }
  }

  /** `(int) (w * scale)` of lines 86-87: the size of the scaled image. */
  function ScaledExtent(extent: nat, scale: real): (r: int)
    requires 0.0 <= scale
    ensures 0 <= r
  {
    ScaledNonneg(extent as real, scale);
    (extent as real * scale).Floor
  }

  lemma ScaledNonneg(a: real, scale: real)
    requires 0.0 <= a && 0.0 <= scale
    ensures 0.0 <= a * scale
  {
  }

  /** Lines 54-57: a window found at `(x, y)` of the image scaled by `s`
      becomes the square `(x/s, y/s, 128/s, 128/s)` of the original image,
      each coordinate truncated by `(int)`. */
  function MapBack(x: int, y: int, s: real): (r: Rect)
    requires 0 <= x && 0 <= y && 0.0 < s <= 1.0
    ensures 0 <= r.x && 0 <= r.y && r.width == r.height >= WindowSize
  {
    Quotient(x, s);
    Quotient(y, s);
    Quotient(WindowSize, s);
    Rect((x as real / s).Floor, (y as real / s).Floor, (WindowSize as real / s).Floor, (WindowSize as real / s).Floor)
  }

  /** Dividing by a scale in `(0, 1]` does not shrink a non-negative
      number. */
  lemma Quotient(v: int, s: real)
    requires 0 <= v && 0.0 < s <= 1.0
    ensures v as real <= v as real / s
  {
    var q := v as real / s;
    assert q * s == v as real;
    if q < v as real {
      ProductLe(s, 1.0, q, s * q, q);
      assert false;
    }
  }

  /** The detections of one row of windows at height `y`, left to right;
      `xs` are the window offsets of the row. */
  function RowDetections(s: real, y: int, xs: seq<int>, score: Score): seq<Rect>
    requires 0.0 < s <= 1.0 && 0 <= y && forall k :: 0 <= k < |xs| ==> 0 <= xs[k]
  {
    if xs == [] then []
    else
      var x := xs[|xs| - 1];
      RowDetections(s, y, xs[..|xs| - 1], score) + (if score(s, x, y) > 0.0 then [MapBack(x, y, s)] else [])
  }

  /** The detections at one scale, row by row: `ys` are the rows visited. */
  function ScaleDetections(s: real, ys: seq<int>, xs: seq<int>, score: Score): seq<Rect>
    requires 0.0 < s <= 1.0
    requires forall k :: 0 <= k < |ys| ==> 0 <= ys[k]
    requires forall k :: 0 <= k < |xs| ==> 0 <= xs[k]
  {
    if ys == [] then []
    else ScaleDetections(s, ys[..|ys| - 1], xs, score) + RowDetections(s, ys[|ys| - 1], xs, score)
  }

  /** The `k`-th scale of the loop of lines 36-63: 1.0, 0.9, 0.8, ... */
  function ScaleAt(k: nat): real {
    1.0 - k as real * ScaleStep
  }

  /** The loop runs exactly for the scales 1.0, 0.9, 0.8, 0.7 and 0.6. */
  lemma ScalesVisited(k: nat)
    ensures ScaleAt(k) >= MinScale <==> k <= 4
    ensures k <= 4 ==> 0.0 < ScaleAt(k) <= 1.0
  {
  }

  /** All detections of the first `k` scales of an image of `width` x
      `height` pixels. */
  function Detections(width: nat, height: nat, k: nat, score: Score): seq<Rect>
    requires k <= 5
  {
    if k == 0 then []
    else
      var s := ScaleAt(k - 1);
      Detections(width, height, k - 1, score)
        + ScaleDetections(s, Offsets(ScaledExtent(height, s)), Offsets(ScaledExtent(width, s)), score)
  }

  /** Every raw detection is a square of side at least 128 with a
      non-negative corner. */
  lemma {:induction false} RowDetectionsShape(s: real, y: int, xs: seq<int>, score: Score)
    requires 0.0 < s <= 1.0 && 0 <= y && forall k :: 0 <= k < |xs| ==> 0 <= xs[k]
    ensures forall r :: r in RowDetections(s, y, xs, score) ==>
              0 <= r.x && 0 <= r.y && r.width == r.height >= WindowSize
  {
    if xs != [] {
      RowDetectionsShape(s, y, xs[..|xs| - 1], score);
    }
  }

  lemma {:induction false} ScaleDetectionsShape(s: real, ys: seq<int>, xs: seq<int>, score: Score)
    requires 0.0 < s <= 1.0
    requires forall k :: 0 <= k < |ys| ==> 0 <= ys[k]
    requires forall k :: 0 <= k < |xs| ==> 0 <= xs[k]
    ensures forall r :: r in ScaleDetections(s, ys, xs, score) ==>
              0 <= r.x && 0 <= r.y && r.width == r.height >= WindowSize
  {
    if ys != [] {
      ScaleDetectionsShape(s, ys[..|ys| - 1], xs, score);
      RowDetectionsShape(s, ys[|ys| - 1], xs, score);
    }
  }

  /** Every detection of the scan, before merging, is a square of side at
      least 128 (the window, enlarged by `1/scale`) whose corner lies in the
      original image's quadrant. */
  lemma {:induction false} DetectionsShape(width: nat, height: nat, k: nat, score: Score)
    requires k <= 5
    ensures forall r :: r in Detections(width, height, k, score) ==>
              0 <= r.x && 0 <= r.y && r.width == r.height >= WindowSize
  {
    if k > 0 {
      DetectionsShape(width, height, k - 1, score);
      var s := ScaleAt(k - 1);
      ScalesVisited(k - 1);
      ScaleDetectionsShape(s, Offsets(ScaledExtent(height, s)), Offsets(ScaledExtent(width, s)), score);
    }
  }

  /** The window at `(x, y)` of the image scaled by `s` scores strictly
      above zero (line 52) and maps back to `r`. */
  predicate Hit(s: real, x: int, y: int, score: Score, r: Rect) {
    0 <= x && 0 <= y && 0.0 < s <= 1.0 && score(s, x, y) > 0.0 && r == MapBack(x, y, s)
  }

  /** A row's detections are the mapped-back windows with a strictly
      positive score, and no others. */
  lemma {:induction false} RowDetectionsExact(s: real, y: int, xs: seq<int>, score: Score, r: Rect)
    requires 0.0 < s <= 1.0 && 0 <= y && forall k :: 0 <= k < |xs| ==> 0 <= xs[k]
    ensures r in RowDetections(s, y, xs, score) <==> exists x :: x in xs && Hit(s, x, y, score, r)
  {
    if xs != [] {
      var front, last := xs[..|xs| - 1], xs[|xs| - 1];
      assert xs == front + [last];
      RowDetectionsExact(s, y, front, score, r);
      var here := if score(s, last, y) > 0.0 then [MapBack(last, y, s)] else [];
      assert RowDetections(s, y, xs, score) == RowDetections(s, y, front, score) + here;
      if r in here {
        assert Hit(s, last, y, score, r);
      }
      if exists x :: x in xs && Hit(s, x, y, score, r) {
        var x :| x in xs && Hit(s, x, y, score, r);
        if x !in front {
          assert x == last;
        }
      }
    }
  }

  /** A scaled image's detections are the mapped-back windows, over all rows
      and columns, with a strictly positive score, and no others. */
  lemma {:induction false} ScaleDetectionsExact(s: real, ys: seq<int>, xs: seq<int>, score: Score, r: Rect)
    requires 0.0 < s <= 1.0
    requires forall k :: 0 <= k < |ys| ==> 0 <= ys[k]
    requires forall k :: 0 <= k < |xs| ==> 0 <= xs[k]
    ensures r in ScaleDetections(s, ys, xs, score) <==> exists x, y :: x in xs && y in ys && Hit(s, x, y, score, r)
  {
    if ys != [] {
      var front := ys[..|ys| - 1];
      var last := ys[|ys| - 1];
      assert ys == front + [last];
      ScaleDetectionsExact(s, front, xs, score, r);
      RowDetectionsExact(s, last, xs, score, r);
    }
  }

  // ---------------------------------------------------------------------
  // The scan (lines 31-66)
  // ---------------------------------------------------------------------

  /** Line 42: the windows of one row, left to right. */
  method ScanRow(scaledWidth: int, y: int, s: real, score: Score) returns (found: seq<Rect>)
    requires 0.0 < s <= 1.0 && 0 <= y
    ensures found == RowDetections(s, y, Offsets(scaledWidth), score)
  {
    ghost var xs := Offsets(scaledWidth);
    found := [];
    var x := 0;
    ghost var k := 0;
    while x <= scaledWidth - WindowSize
      invariant 0 <= k <= |xs| && x == StepSize * k
      invariant found == RowDetections(s, y, xs[..k], score)
      decreases scaledWidth - x
    {
      assert xs[..k + 1][..k] == xs[..k];
      if score(s, x, y) > 0.0 {
        found := found + [MapBack(x, y, s)];
      }
      x := x + StepSize;
      k := k + 1;
    }
    assert xs[..k] == xs;
  }

  /** Lines 41-60: the rows of windows of one scaled image, top to bottom. */
  method ScanScale(scaledWidth: int, scaledHeight: int, s: real, score: Score) returns (found: seq<Rect>)
    requires 0.0 < s <= 1.0
    ensures found == ScaleDetections(s, Offsets(scaledHeight), Offsets(scaledWidth), score)
  {
    ghost var ys := Offsets(scaledHeight);
    found := [];
    var y := 0;
    ghost var k := 0;
    while y <= scaledHeight - WindowSize
      invariant 0 <= k <= |ys| && y == StepSize * k
      invariant found == ScaleDetections(s, ys[..k], Offsets(scaledWidth), score)
      decreases scaledHeight - y
    {
      assert ys[..k + 1][..k] == ys[..k];
      var row := ScanRow(scaledWidth, y, s, score);
      found := found + row;
      y := y + StepSize;
      k := k + 1;
    }
    assert ys[..k] == ys;
  }

  /** Lines 36-60: the image resized by `s`, then scanned. */
  method ScanResized(width: nat, height: nat, s: real, score: Score) returns (found: seq<Rect>)
    requires 0.0 < s <= 1.0
    ensures found == ScaleDetections(s, Offsets(ScaledExtent(height, s)), Offsets(ScaledExtent(width, s)), score)
  {
    var scaledWidth := ScaledExtent(width, s);
    var scaledHeight := ScaledExtent(height, s);
    found := ScanScale(scaledWidth, scaledHeight, s, score);
  }

  /** Lines 32-63: every scale from 1.0 down to 0.6, collecting the
      positive windows mapped back to the original image. */
  method ScanAllScales(width: nat, height: nat, score: Score) returns (found: seq<Rect>)
    ensures found == Detections(width, height, 5, score)
  {
    found := [];
    var scaleFactor := 1.0;
    ghost var k: nat := 0;
    ScalesVisited(k);
    while scaleFactor >= MinScale
      invariant k <= 5 && scaleFactor == ScaleAt(k)
      invariant found == Detections(width, height, k, score)
      decreases 5 - k
    {
      ScalesVisited(k);
      var atScale := ScanResized(width, height, scaleFactor, score);
      assert Detections(width, height, k + 1, score) == found + atScale;
      found := found + atScale;
      scaleFactor := scaleFactor - ScaleStep;
      k := k + 1;
    }
    ScalesVisited(k);
  }

  /** Lines 31-66: the scan followed by the clustering with a threshold of
      150 pixels between centres (the `minArea` argument is unused by the
      clustering). */
  method GetDetections(width: nat, height: nat, score: Score, t: Transcendentals) returns (detections: seq<Rect>)
    ensures detections == Merge(Detections(width, height, 5, score), DistanceThreshold, t)
  {
    var found := ScanAllScales(width, height, score);
    detections := ClusterDetections(found, DistanceThreshold, t);
  }

  /** The merged detections have a non-negative corner, as the raw ones do. */
  lemma MergedCorner(width: nat, height: nat, score: Score, t: Transcendentals, r: Rect)
    requires r in Merge(Detections(width, height, 5, score), DistanceThreshold, t)
    ensures 0 <= r.x && 0 <= r.y
  {
    var raw := Detections(width, height, 5, score);
    var groups := Clusters(raw, DistanceThreshold, t);
    var merged := Merge(raw, DistanceThreshold, t);
    var g :| 0 <= g < |merged| && merged[g] == r;
    ClustersSeeded(raw, DistanceThreshold, t, g);
    DetectionsShape(width, height, 5, score);
    var cluster := groups[g].cluster;
    forall k | 0 <= k < |cluster|
      ensures 0 <= cluster[k].x && 0 <= cluster[k].y
    {
      assert cluster[k] in raw;
    }
    BBoxCorner(cluster);
  }

  lemma {:induction false} BBoxCorner(cluster: seq<Rect>)
    requires forall k :: 0 <= k < |cluster| ==> 0 <= cluster[k].x && 0 <= cluster[k].y
    ensures 0 <= BBox(cluster).x && 0 <= BBox(cluster).y
  {
    if cluster != [] {
      var front := cluster[..|cluster| - 1];
      forall k | 0 <= k < |front|
        ensures 0 <= front[k].x && 0 <= front[k].y
      {
        assert front[k] == cluster[k];
      }
      BBoxCorner(front);
    }
  }

  // ---------------------------------------------------------------------
  // Cropping (lines 150-180)
  // ---------------------------------------------------------------------

  /** The pixel `(px, py)` lies in `r`. */
  predicate Contains(r: Rect, px: int, py: int) {
    r.x <= px < r.x + r.width && r.y <= py < r.y + r.height
  }

  /** Lines 161-166: the corner is moved to non-negative coordinates, the
      size cut at the image's right and bottom edges, and an empty result
      skipped. */
  function CropRegion(r: Rect, imageWidth: int, imageHeight: int): Option<Rect> {
    var x := MaxInt(0, r.x);
    var y := MaxInt(0, r.y);
    var width := MinInt(r.width, imageWidth - x);
    var height := MinInt(r.height, imageHeight - y);
    if width <= 0 || height <= 0 then None else Some(Rect(x, y, width, height))
  }

  /** A crop is a non-empty rectangle inside the image, so
      `getSubimage` never fails. */
  lemma CropInside(r: Rect, imageWidth: int, imageHeight: int)
    ensures CropRegion(r, imageWidth, imageHeight).Some? ==>
              var c := CropRegion(r, imageWidth, imageHeight).value;
              && 0 <= c.x && 0 < c.width && c.x + c.width <= imageWidth
              && 0 <= c.y && 0 < c.height && c.y + c.height <= imageHeight
  {
  }

  /** For a detection with a non-negative corner (every detection of the
      scan and the clustering, by `MergedCorner`), the crop is exactly the
      part of the detection inside the image, and it is skipped exactly
      when that part is empty. */
  lemma CropIsIntersection(r: Rect, imageWidth: int, imageHeight: int, px: int, py: int)
    requires 0 <= r.x && 0 <= r.y
    ensures CropRegion(r, imageWidth, imageHeight).Some? ==>
              (Contains(CropRegion(r, imageWidth, imageHeight).value, px, py) <==>
                 Contains(r, px, py) && 0 <= px < imageWidth && 0 <= py < imageHeight)
    ensures CropRegion(r, imageWidth, imageHeight).None? ==>
              !(Contains(r, px, py) && 0 <= px < imageWidth && 0 <= py < imageHeight)
  {
  }

  /** The crops written for `detections`, in order. */
  function Crops(detections: seq<Rect>, imageWidth: int, imageHeight: int): seq<Rect> {
    if detections == [] then []
    else
      Crops(detections[..|detections| - 1], imageWidth, imageHeight)
        + match CropRegion(detections[|detections| - 1], imageWidth, imageHeight)
          case Some(c) => [c]
          case None => []
  }

  /** Every crop written lies inside the image and is not empty; there is
      at most one per detection. */
  lemma {:induction false} CropsInside(detections: seq<Rect>, imageWidth: int, imageHeight: int)
    ensures |Crops(detections, imageWidth, imageHeight)| <= |detections|
    ensures forall c :: c in Crops(detections, imageWidth, imageHeight) ==>
              && 0 <= c.x && 0 < c.width && c.x + c.width <= imageWidth
              && 0 <= c.y && 0 < c.height && c.y + c.height <= imageHeight
  {
    if detections != [] {
      CropsInside(detections[..|detections| - 1], imageWidth, imageHeight);
      CropInside(detections[|detections| - 1], imageWidth, imageHeight);
    }
  }

  /** Lines 159-177: one crop per detection whose clamped region is not
      empty; `count` is the number of files `head_<n>.png` written. */
  method SaveCrops(detections: seq<Rect>, imageWidth: int, imageHeight: int) returns (crops: seq<Rect>, count: nat)
    ensures crops == Crops(detections, imageWidth, imageHeight) && count == |crops|
  {
    crops := [];
    count := 0;
    var k := 0;
    while k < |detections|
      invariant 0 <= k <= |detections|
      invariant crops == Crops(detections[..k], imageWidth, imageHeight) && count == |crops|
    {
      assert detections[..k + 1][..k] == detections[..k];
      var rect := detections[k];
      var x := MaxInt(0, rect.x);
      var y := MaxInt(0, rect.y);
      var width := MinInt(rect.width, imageWidth - x);
      var height := MinInt(rect.height, imageHeight - y);
      if !(width <= 0 || height <= 0) {
        crops := crops + [Rect(x, y, width, height)];
        count := count + 1;
      }
      k := k + 1;
    }
    assert detections[..k] == detections;
  }

  /** Lines 150-180: detect, return early when nothing was found, and crop
      every detection. */
  method DetectAndSaveAllHeads(width: nat, height: nat, score: Score, t: Transcendentals) returns (crops: seq<Rect>, count: nat)
    ensures crops == Crops(Merge(Detections(width, height, 5, score), DistanceThreshold, t), width, height)
    ensures count == |crops|
  {
    var detections := GetDetections(width, height, score, t);
    if |detections| == 0 {
      return [], 0;
    }
    crops, count := SaveCrops(detections, width, height);
  }
}
