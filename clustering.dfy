/** Greedy merging of overlapping detections (`clusterDetections`,
    src/Utils/SVMTester.java lines 95-139). Each detection not yet taken
    seeds a cluster; every later detection not yet taken whose centre lies
    closer than the threshold to the SEED's centre joins it; the cluster is
    replaced by the bounding box of its members, computed with
    `Integer.MAX_VALUE`/`Integer.MIN_VALUE` sentinels. */
module Clustering {
  import opened Numerics

  /** `java.awt.Rectangle`: the top-left corner and the size. */
  datatype Rect = Rect(x: int, y: int, width: int, height: int)

  const IntMax: int := 0x7fff_ffff
  const IntMin: int := -0x8000_0000

  /** Every coordinate and far edge of `r` is a Java `int`. */
  predicate JavaInts(r: Rect) {
    && IntMin <= r.x <= IntMax && IntMin <= r.y <= IntMax
    && IntMin <= r.x + r.width <= IntMax && IntMin <= r.y + r.height <= IntMax
  }

  /** `outer` spans at least the columns and rows `inner` spans. */
  predicate Covers(outer: Rect, inner: Rect) {
    && outer.x <= inner.x && inner.x + inner.width <= outer.x + outer.width
    && outer.y <= inner.y && inner.y + inner.height <= outer.y + outer.height
  }

  // ---------------------------------------------------------------------
  // Distance between centres (lines 111-115)
  // ---------------------------------------------------------------------

  /** `Rectangle.getCenterX()` and `getCenterY()`. */
  function CenterX(r: Rect): real {
    r.x as real + r.width as real / 2.0
  }

  function CenterY(r: Rect): real {
    r.y as real + r.height as real / 2.0
  }

  /** The squared distance between the centres of `a` and `b`. */
  function SqCenterDistance(a: Rect, b: Rect): real {
    var dx := CenterX(a) - CenterX(b);
    var dy := CenterY(a) - CenterY(b);
    dx * dx + dy * dy
  }

  /** Line 115: the centres are closer than `threshold`. */
  predicate Close(t: Transcendentals, threshold: real, a: Rect, b: Rect) {
    t.sqrt(SqCenterDistance(a, b)) < threshold
  }

  /** With a positive threshold, two detections are close exactly when the
      squared distance of their centres is below the squared threshold. */
  lemma CloseIff(t: Transcendentals, threshold: real, a: Rect, b: Rect)
    requires t.SqrtValid() && 0.0 < threshold
    ensures Close(t, threshold, a, b) <==> SqCenterDistance(a, b) < threshold * threshold
  {
    var dx := CenterX(a) - CenterX(b);
    var dy := CenterY(a) - CenterY(b);
    SquareNonneg(dx, dx * dx);
    SquareNonneg(dy, dy * dy);
    SqrtLessIff(t, SqCenterDistance(a, b), threshold);
  }

  /** A detection is close to itself for any positive threshold. */
  lemma CloseSelf(t: Transcendentals, threshold: real, a: Rect)
    requires t.SqrtValid() && 0.0 < threshold
    ensures Close(t, threshold, a, a)
  {
    assert SqCenterDistance(a, a) == 0.0;
    SqrtZeroIff(t, 0.0);
    assert t.sqrt(0.0) == 0.0;
  }

  // ---------------------------------------------------------------------
  // Bounding box (lines 121-133)
  // ---------------------------------------------------------------------

  datatype Bounds = Bounds(minX: int, minY: int, maxX: int, maxY: int)

  /** The running minima and maxima of lines 126-131, from the sentinels. */
  function BoundsOf(cluster: seq<Rect>): Bounds {
    if cluster == [] then Bounds(IntMax, IntMax, IntMin, IntMin)
    else
      var b := BoundsOf(cluster[..|cluster| - 1]);
      var r := cluster[|cluster| - 1];
      Bounds(MinInt(b.minX, r.x), MinInt(b.minY, r.y), MaxInt(b.maxX, r.x + r.width), MaxInt(b.maxY, r.y + r.height))
  }

  /** Line 133: the rectangle from the minima to the maxima. */
  function BBox(cluster: seq<Rect>): Rect {
    var b := BoundsOf(cluster);
    Rect(b.minX, b.minY, b.maxX - b.minX, b.maxY - b.minY)
  }

  /** The bounding box covers every member of the cluster. */
  lemma {:induction false} BBoxCovers(cluster: seq<Rect>, k: int)
    requires 0 <= k < |cluster|
    ensures Covers(BBox(cluster), cluster[k])
  {
    var front := cluster[..|cluster| - 1];
    if k < |front| {
      BBoxCovers(front, k);
      assert front[k] == cluster[k];
    }
  }

  /** For members whose coordinates are Java ints the sentinels never
      survive, so the bounding box is the least rectangle covering them. */
  lemma {:induction false} BBoxLeast(cluster: seq<Rect>, outer: Rect)
    requires cluster != []
    requires forall k :: 0 <= k < |cluster| ==> JavaInts(cluster[k])
    requires forall k :: 0 <= k < |cluster| ==> Covers(outer, cluster[k])
    ensures Covers(outer, BBox(cluster))
  {
    var front := cluster[..|cluster| - 1];
    var r := cluster[|cluster| - 1];
    assert JavaInts(r) && Covers(outer, r);
    if front != [] {
      forall k | 0 <= k < |front|
        ensures JavaInts(front[k]) && Covers(outer, front[k])
      {
        assert front[k] == cluster[k];
      }
      BBoxLeast(front, outer);
    }
    var b := BoundsOf(front);
    assert outer.x <= b.minX && b.maxX <= outer.x + outer.width;
    assert outer.y <= b.minY && b.maxY <= outer.y + outer.height;
  }

  /** A single detection is its own bounding box. */
  lemma BBoxSingle(r: Rect)
    requires JavaInts(r)
    ensures BBox([r]) == r
  {
    assert [r][..|[r]| - 1] == [];
    assert BoundsOf([r]) == Bounds(r.x, r.y, r.x + r.width, r.y + r.height);
  }

  // ---------------------------------------------------------------------
  // The clustering (lines 99-136), as a function of the detections
  // ---------------------------------------------------------------------

  /** A cluster: the indices of its members in the input, and the members. */
  datatype Group = Group(members: seq<nat>, cluster: seq<Rect>)

  /** Lines 107-119: from `j` on, every detection not yet taken whose centre
      is close to the seed's joins the cluster and is marked taken. */
  function Grow(rects: seq<Rect>, threshold: real, t: Transcendentals, seed: nat, j: nat, visited: seq<bool>, g: Group): (r: (Group, seq<bool>))
    requires seed < |rects| && |visited| == |rects| && j <= |rects|
    ensures |r.1| == |rects|
    decreases |rects| - j
  {
    if j == |rects| then (g, visited)
    else if !visited[j] && Close(t, threshold, rects[seed], rects[j]) then
      Grow(rects, threshold, t, seed, j + 1, visited[j := true], Group(g.members + [j], g.cluster + [rects[j]]))
    else
      Grow(rects, threshold, t, seed, j + 1, visited, g)
  }

  /** Lines 99-136 from index `i` on: the clusters seeded at `i` and after. */
  function Groups(rects: seq<Rect>, threshold: real, t: Transcendentals, i: nat, visited: seq<bool>): seq<Group>
    requires |visited| == |rects| && i <= |rects|
    decreases |rects| - i
  {
    if i == |rects| then []
    else if visited[i] then Groups(rects, threshold, t, i + 1, visited)
    else
      var grown := Grow(rects, threshold, t, i, i + 1, visited[i := true], Group([i], [rects[i]]));
      [grown.0] + Groups(rects, threshold, t, i + 1, grown.1)
  }

  function NoneVisited(n: nat): seq<bool> {
    seq(n, _ => false)
  }

  /** The clusters of all detections, in the order of their seeds. */
  function Clusters(rects: seq<Rect>, threshold: real, t: Transcendentals): seq<Group> {
    Groups(rects, threshold, t, 0, NoneVisited(|rects|))
  }

  /** The bounding boxes of the clusters, in order. */
  function Boxes(groups: seq<Group>): (r: seq<Rect>)
    ensures |r| == |groups|
  {
    seq(|groups|, g requires 0 <= g < |groups| => BBox(groups[g].cluster))
  }

  /** What `clusterDetections` returns. */
  function Merge(rects: seq<Rect>, threshold: real, t: Transcendentals): seq<Rect> {
    Boxes(Clusters(rects, threshold, t))
  }

  // ---------------------------------------------------------------------
  // Properties of the clustering
  // ---------------------------------------------------------------------

  /** A cluster seeded at `seed`: it starts with the seed, its rectangles
      are the input's at its indices, and every later member is close to
      the seed (not merely to some other member) and comes after it. */
  ghost predicate SeededBy(rects: seq<Rect>, threshold: real, t: Transcendentals, seed: nat, g: Group) {
    && |g.members| == |g.cluster| && 1 <= |g.members| && g.members[0] == seed
    && (forall k :: 0 <= k < |g.members| ==> g.members[k] < |rects| && g.cluster[k] == rects[g.members[k]])
    && (forall k :: 1 <= k < |g.members| ==> seed < g.members[k])
    && (forall k :: 1 <= k < |g.members| ==> seed < |rects| && Close(t, threshold, rects[seed], rects[g.members[k]]))
  }

  lemma {:induction false} GrowSeeded(rects: seq<Rect>, threshold: real, t: Transcendentals, seed: nat, j: nat, visited: seq<bool>, g: Group)
    requires seed < j <= |rects| && |visited| == |rects|
    requires SeededBy(rects, threshold, t, seed, g)
    ensures SeededBy(rects, threshold, t, seed, Grow(rects, threshold, t, seed, j, visited, g).0)
    decreases |rects| - j
  {
    if j < |rects| {
      if !visited[j] && Close(t, threshold, rects[seed], rects[j]) {
        var g' := Group(g.members + [j], g.cluster + [rects[j]]);
        assert forall k :: 0 <= k < |g.members| ==> g'.members[k] == g.members[k] && g'.cluster[k] == g.cluster[k];
        GrowSeeded(rects, threshold, t, seed, j + 1, visited[j := true], g');
      } else {
        GrowSeeded(rects, threshold, t, seed, j + 1, visited, g);
      }
    }
  }

  lemma {:induction false} GroupsSeeded(rects: seq<Rect>, threshold: real, t: Transcendentals, i: nat, visited: seq<bool>)
    requires |visited| == |rects| && i <= |rects|
    ensures forall g :: 0 <= g < |Groups(rects, threshold, t, i, visited)| ==>
              var group := Groups(rects, threshold, t, i, visited)[g];
              1 <= |group.members| && SeededBy(rects, threshold, t, group.members[0], group)
    decreases |rects| - i
  {
    if i < |rects| {
      if visited[i] {
        GroupsSeeded(rects, threshold, t, i + 1, visited);
      } else {
        var grown := Grow(rects, threshold, t, i, i + 1, visited[i := true], Group([i], [rects[i]]));
        GrowSeeded(rects, threshold, t, i, i + 1, visited[i := true], Group([i], [rects[i]]));
        GroupsSeeded(rects, threshold, t, i + 1, grown.1);
      }
    }
  }

  /** Every cluster has a seed, and the seeds strictly increase. */
  ghost predicate SeedsIncrease(groups: seq<Group>) {
    && (forall g :: 0 <= g < |groups| ==> 1 <= |groups[g].members|)
    && (forall g1, g2 :: 0 <= g1 < g2 < |groups| ==> groups[g1].members[0] < groups[g2].members[0])
  }

  lemma {:induction false} GroupsSeedOrder(rects: seq<Rect>, threshold: real, t: Transcendentals, i: nat, visited: seq<bool>)
    requires |visited| == |rects| && i <= |rects|
    ensures SeedsIncrease(Groups(rects, threshold, t, i, visited))
    ensures forall group :: group in Groups(rects, threshold, t, i, visited) ==> 1 <= |group.members| && i <= group.members[0]
    decreases |rects| - i
  {
    if i < |rects| {
      if visited[i] {
        GroupsSeedOrder(rects, threshold, t, i + 1, visited);
      } else {
        var start := Group([i], [rects[i]]);
        var grown := Grow(rects, threshold, t, i, i + 1, visited[i := true], start);
        GrowSeeded(rects, threshold, t, i, i + 1, visited[i := true], start);
        GroupsSeedOrder(rects, threshold, t, i + 1, grown.1);
        var rest := Groups(rects, threshold, t, i + 1, grown.1);
        var groups := Groups(rects, threshold, t, i, visited);
        assert groups == [grown.0] + rest;
        assert grown.0.members[0] == i;
        forall g1, g2 | 0 <= g1 < g2 < |groups|
          ensures groups[g1].members[0] < groups[g2].members[0]
        {
          assert groups[g2] == rest[g2 - 1] && groups[g2] in rest;
          if 0 < g1 {
            assert groups[g1] == rest[g1 - 1];
          }
        }
      }
    }
  }

  /** Seeds are taken in increasing index order. */
  lemma ClustersSeedOrder(rects: seq<Rect>, threshold: real, t: Transcendentals)
    ensures SeedsIncrease(Clusters(rects, threshold, t))
  {
    GroupsSeedOrder(rects, threshold, t, 0, NoneVisited(|rects|));
  }

  /** Every cluster is seeded by its first member, and only detections
      close to that seed join it. */
  lemma ClustersSeeded(rects: seq<Rect>, threshold: real, t: Transcendentals, g: int)
    requires 0 <= g < |Clusters(rects, threshold, t)|
    ensures var group := Clusters(rects, threshold, t)[g];
            1 <= |group.members| && SeededBy(rects, threshold, t, group.members[0], group)
  {
    GroupsSeeded(rects, threshold, t, 0, NoneVisited(|rects|));
  }

  /** The indices from `lo` on that are not yet taken. */
  function Untaken(visited: seq<bool>, lo: nat): multiset<nat>
    requires lo <= |visited|
    decreases |visited| - lo
  {
    if lo == |visited| then multiset{}
    else if visited[lo] then Untaken(visited, lo + 1)
    else multiset{lo} + Untaken(visited, lo + 1)
  }

  /** The member indices of all clusters, concatenated. */
  function AllMembers(groups: seq<Group>): seq<nat> {
    if groups == [] then [] else groups[0].members + AllMembers(groups[1..])
  }

  lemma {:induction false} UntakenFrame(v: seq<bool>, w: seq<bool>, lo: nat)
    requires lo <= |v| == |w|
    requires forall k :: lo <= k < |v| ==> v[k] == w[k]
    ensures Untaken(v, lo) == Untaken(w, lo)
    decreases |v| - lo
  {
    if lo < |v| {
      UntakenFrame(v, w, lo + 1);
    }
  }

  /** One step of Untaken: an index already taken is skipped, a free one is listed. */
  lemma UntakenHead(v: seq<bool>, lo: nat)
    requires lo < |v|
    ensures v[lo] ==> Untaken(v, lo) == Untaken(v, lo + 1)
    ensures !v[lo] ==> Untaken(v, lo) == multiset{lo} + Untaken(v, lo + 1)
  {
  }

  /** Marking a free index j as taken removes exactly j from the untaken indices. */
  lemma {:induction false} UntakenMark(v: seq<bool>, w: seq<bool>, lo: nat, j: nat)
    requires lo <= j < |v| && !v[j] && w == v[j := true]
    ensures Untaken(v, lo) == Untaken(w, lo) + multiset{j}
    decreases |v| - lo
  {
    if lo == j {
      UntakenMarkHere(v, w, j);
    } else {
      UntakenHead(v, lo);
      UntakenHead(w, lo);
      UntakenMark(v, w, lo + 1, j);
      if !v[lo] {
        MoveOne(Untaken(v, lo), Untaken(w, lo), Untaken(v, lo + 1), Untaken(w, lo + 1), lo, j);
      }
    }
  }

  lemma UntakenMarkHere(v: seq<bool>, w: seq<bool>, j: nat)
    requires j < |v| && !v[j] && w == v[j := true]
    ensures Untaken(v, j) == Untaken(w, j) + multiset{j}
  {
    UntakenFrame(v, w, j + 1);
    UntakenHead(v, j);
    UntakenHead(w, j);
  }

  lemma MoveOne(a: multiset<nat>, c: multiset<nat>, a': multiset<nat>, c': multiset<nat>, h: nat, j: nat)
    requires a == multiset{h} + a' && c == multiset{h} + c' && a' == c' + multiset{j}
    ensures a == c + multiset{j}
  {
  }

  lemma {:induction false} UntakenNone(n: nat, lo: nat)
    requires lo <= n
    ensures Untaken(NoneVisited(n), lo) == multiset(seq(n - lo, k => lo + k))
    decreases n - lo
  {
    if lo < n {
      UntakenNone(n, lo + 1);
      assert seq(n - lo, k => lo + k) == [lo] + seq(n - (lo + 1), k => lo + 1 + k);
    }
  }

  /** Growing a cluster moves indices from "not taken" into the cluster. */
  lemma {:induction false} GrowMoves(rects: seq<Rect>, threshold: real, t: Transcendentals, seed: nat, lo: nat, j: nat, visited: seq<bool>, g: Group)
    requires seed < |rects| && lo <= j <= |rects| && |visited| == |rects|
    ensures var grown := Grow(rects, threshold, t, seed, j, visited, g);
            multiset(grown.0.members) + Untaken(grown.1, lo)
              == multiset(g.members) + Untaken(visited, lo)
    decreases |rects| - j
  {
    if j < |rects| {
      if !visited[j] && Close(t, threshold, rects[seed], rects[j]) {
        GrowMoves(rects, threshold, t, seed, lo, j + 1, visited[j := true], Group(g.members + [j], g.cluster + [rects[j]]));
        UntakenMark(visited, visited[j := true], lo, j);
      } else {
        GrowMoves(rects, threshold, t, seed, lo, j + 1, visited, g);
      }
    }
  }

  lemma {:induction false} GroupsPartition(rects: seq<Rect>, threshold: real, t: Transcendentals, i: nat, visited: seq<bool>)
    requires |visited| == |rects| && i <= |rects|
    ensures multiset(AllMembers(Groups(rects, threshold, t, i, visited))) == Untaken(visited, i)
    decreases |rects| - i, 1
  {
    if i < |rects| {
      UntakenHead(visited, i);
      if visited[i] {
        GroupsPartition(rects, threshold, t, i + 1, visited);
      } else {
        GroupsPartitionSeed(rects, threshold, t, i, visited);
      }
    }
  }

  /** The case of `GroupsPartition` where index `i` seeds a new cluster. */
  lemma {:induction false} GroupsPartitionSeed(rects: seq<Rect>, threshold: real, t: Transcendentals, i: nat, visited: seq<bool>)
    requires |visited| == |rects| && i < |rects| && !visited[i]
    ensures multiset(AllMembers(Groups(rects, threshold, t, i, visited))) == multiset{i} + Untaken(visited, i + 1)
    decreases |rects| - i, 0
  {
    var w := visited[i := true];
    var start := Group([i], [rects[i]]);
    var grown := Grow(rects, threshold, t, i, i + 1, w, start);
    var rest := Groups(rects, threshold, t, i + 1, grown.1);
    assert Groups(rects, threshold, t, i, visited) == [grown.0] + rest;
    assert ([grown.0] + rest)[1..] == rest;
    GroupsPartition(rects, threshold, t, i + 1, grown.1);
    GrowMoves(rects, threshold, t, i, i + 1, i + 1, w, start);
    UntakenFrame(w, visited, i + 1);
  }

  /** Every detection belongs to exactly one cluster: the member indices of
      all clusters are `0 .. |rects|-1`, each once. */
  lemma ClustersPartition(rects: seq<Rect>, threshold: real, t: Transcendentals)
    ensures multiset(AllMembers(Clusters(rects, threshold, t))) == multiset(seq(|rects|, k => k))
  {
    GroupsPartition(rects, threshold, t, 0, NoneVisited(|rects|));
    UntakenNone(|rects|, 0);
    assert seq(|rects| - 0, k => 0 + k) == seq(|rects|, k => k);
  }

  lemma {:induction false} InAllMembers(groups: seq<Group>, k: nat)
    requires k in AllMembers(groups)
    ensures exists g, p :: 0 <= g < |groups| && 0 <= p < |groups[g].members| && groups[g].members[p] == k
  {
    if k in groups[0].members {
      var p :| 0 <= p < |groups[0].members| && groups[0].members[p] == k;
      assert groups[0].members[p] == k;
    } else {
      InAllMembers(groups[1..], k);
      var g, p :| 0 <= g < |groups[1..]| && 0 <= p < |groups[1..][g].members| && groups[1..][g].members[p] == k;
      assert groups[g + 1].members[p] == k;
    }
  }

  /** No detection is lost: every input rectangle lies inside one of the
      merged rectangles. */
  lemma MergeCovers(rects: seq<Rect>, threshold: real, t: Transcendentals, k: int)
    requires 0 <= k < |rects|
    ensures exists g :: 0 <= g < |Merge(rects, threshold, t)| && Covers(Merge(rects, threshold, t)[g], rects[k])
  {
    var gs := Clusters(rects, threshold, t);
    ClustersPartition(rects, threshold, t);
    var all := seq(|rects|, k => k);
    assert all[k] == k;
    assert k in multiset(AllMembers(gs));
    InAllMembers(gs, k);
    var g, p :| 0 <= g < |gs| && 0 <= p < |gs[g].members| && gs[g].members[p] == k;
    ClustersSeeded(rects, threshold, t, g);
    BBoxCovers(gs[g].cluster, p);
    assert Merge(rects, threshold, t)[g] == BBox(gs[g].cluster);
  }

  lemma {:induction false} GroupsCount(rects: seq<Rect>, threshold: real, t: Transcendentals, i: nat, visited: seq<bool>)
    requires |visited| == |rects| && i <= |rects|
    ensures |Groups(rects, threshold, t, i, visited)| <= |rects| - i
    ensures i < |rects| && !visited[i] ==> 1 <= |Groups(rects, threshold, t, i, visited)|
    decreases |rects| - i
  {
    if i < |rects| {
      if visited[i] {
        GroupsCount(rects, threshold, t, i + 1, visited);
      } else {
        var grown := Grow(rects, threshold, t, i, i + 1, visited[i := true], Group([i], [rects[i]]));
        GroupsCount(rects, threshold, t, i + 1, grown.1);
      }
    }
  }

  /** Merging never adds rectangles, and leaves at least one when there was
      at least one. */
  lemma MergeCount(rects: seq<Rect>, threshold: real, t: Transcendentals)
    ensures |Merge(rects, threshold, t)| <= |rects|
    ensures |Merge(rects, threshold, t)| == 0 <==> rects == []
  {
    GroupsCount(rects, threshold, t, 0, NoneVisited(|rects|));
  }

  /** No two detections have close centres. */
  ghost predicate Scattered(rects: seq<Rect>, threshold: real, t: Transcendentals) {
    forall a, c :: 0 <= a < c < |rects| ==> !Close(t, threshold, rects[a], rects[c])
  }

  lemma {:induction false} GrowScattered(rects: seq<Rect>, threshold: real, t: Transcendentals, seed: nat, j: nat, visited: seq<bool>, g: Group)
    requires seed < j <= |rects| && |visited| == |rects| && Scattered(rects, threshold, t)
    ensures Grow(rects, threshold, t, seed, j, visited, g) == (g, visited)
    decreases |rects| - j
  {
    if j < |rects| {
      GrowScattered(rects, threshold, t, seed, j + 1, visited, g);
    }
  }

  lemma {:induction false} GroupsScattered(rects: seq<Rect>, threshold: real, t: Transcendentals, i: nat, visited: seq<bool>)
    requires i <= |rects| == |visited| && Scattered(rects, threshold, t)
    requires forall k :: i <= k < |rects| ==> !visited[k]
    ensures Groups(rects, threshold, t, i, visited)
              == seq(|rects| - i, k requires 0 <= k < |rects| - i => Group([i + k], [rects[i + k]]))
    decreases |rects| - i
  {
    if i < |rects| {
      var start := Group([i], [rects[i]]);
      GrowScattered(rects, threshold, t, i, i + 1, visited[i := true], start);
      GroupsScattered(rects, threshold, t, i + 1, visited[i := true]);
    }
  }

  /** When no two detections are close, merging returns them unchanged. */
  lemma MergeScattered(rects: seq<Rect>, threshold: real, t: Transcendentals)
    requires Scattered(rects, threshold, t)
    requires forall k :: 0 <= k < |rects| ==> JavaInts(rects[k])
    ensures Merge(rects, threshold, t) == rects
  {
    GroupsScattered(rects, threshold, t, 0, NoneVisited(|rects|));
    var merged := Merge(rects, threshold, t);
    forall k | 0 <= k < |rects|
      ensures merged[k] == rects[k]
    {
      BBoxSingle(rects[k]);
    }
  }

  // ---------------------------------------------------------------------
  // The loops of lines 95-139
  // ---------------------------------------------------------------------

  /** Lines 121-133: the bounding box of a cluster. */
  method BoundingBox(cluster: seq<Rect>) returns (box: Rect)
    ensures box == BBox(cluster)
  {
    var minX, minY, maxX, maxY := IntMax, IntMax, IntMin, IntMin;
    var k := 0;
    while k < |cluster|
      invariant 0 <= k <= |cluster|
      invariant Bounds(minX, minY, maxX, maxY) == BoundsOf(cluster[..k])
    {
      assert cluster[..k + 1][..k] == cluster[..k];
      var r := cluster[k];
      minX := MinInt(minX, r.x);
      minY := MinInt(minY, r.y);
      maxX := MaxInt(maxX, r.x + r.width);
      maxY := MaxInt(maxY, r.y + r.height);
      k := k + 1;
    }
    assert cluster[..k] == cluster;
    box := Rect(minX, minY, maxX - minX, maxY - minY);
  }

  /** Lines 103-119: the cluster seeded at `seed`, which the caller has
      already marked taken. */
  method GrowCluster(rects: seq<Rect>, threshold: real, t: Transcendentals, seed: nat, visited: array<bool>)
      returns (cluster: seq<Rect>, ghost members: seq<nat>)
    requires seed < |rects| && visited.Length == |rects|
    modifies visited
    ensures (Group(members, cluster), visited[..])
              == Grow(rects, threshold, t, seed, seed + 1, old(visited[..]), Group([seed], [rects[seed]]))
  {
    var base := rects[seed];
    cluster := [base];
    members := [seed];
    var j := seed + 1;
    while j < |rects|
      invariant seed + 1 <= j <= |rects|
      invariant Grow(rects, threshold, t, seed, j, visited[..], Group(members, cluster))
                  == Grow(rects, threshold, t, seed, seed + 1, old(visited[..]), Group([seed], [rects[seed]]))
    {
      if !visited[j] {
        var other := rects[j];
        var dx := CenterX(base) - CenterX(other);
        var dy := CenterY(base) - CenterY(other);
        assert dx * dx + dy * dy == SqCenterDistance(base, other);
        var distance := t.sqrt(dx * dx + dy * dy);
        if distance < threshold {
          visited[j] := true;
          cluster := cluster + [other];
          members := members + [j];
        }
      }
      j := j + 1;
    }
  }

  /** Lines 95-139: the merged detections. */
  method ClusterDetections(rects: seq<Rect>, threshold: real, t: Transcendentals) returns (clustered: seq<Rect>)
    ensures clustered == Merge(rects, threshold, t)
  {
    var visited := new bool[|rects|](_ => false);
    ghost var groups: seq<Group> := [];
    assert visited[..] == NoneVisited(|rects|);
    clustered := [];
    var i := 0;
    while i < |rects|
      invariant 0 <= i <= |rects| && visited.Length == |rects|
      invariant groups + Groups(rects, threshold, t, i, visited[..]) == Clusters(rects, threshold, t)
      invariant clustered == Boxes(groups)
    {
      if !visited[i] {
        ghost var before := visited[..];
        visited[i] := true;
        var cluster, members := GrowCluster(rects, threshold, t, i, visited);
        var box := BoundingBox(cluster);
        groups := groups + [Group(members, cluster)];
        clustered := clustered + [box];
      }
      i := i + 1;
    }
  }
}
