/** The two kernels shared by the SMO solver and the trained classifier
    (src/SVM/SMOTrainer.java `kernel`, src/SVM/SVMClassifier.java `kernel`).
    Both Java methods accumulate left to right over the first `len`
    components; the sums below unfold in the same order. */
module Kernels {
  import opened Numerics

  datatype KernelType = Linear | Rbf

  /** `x[0]*z[0] + ... + x[len-1]*z[len-1]`, accumulated left to right. */
  function Dot(x: seq<real>, z: seq<real>, len: nat): real
    requires len <= |x| && len <= |z|
  {
    if len == 0 then 0.0 else Dot(x, z, len - 1) + x[len - 1] * z[len - 1]
  }

  /** The squared Euclidean distance over the first `len` components. */
  function SqDist(x: seq<real>, z: seq<real>, len: nat): real
    requires len <= |x| && len <= |z|
  {
    if len == 0 then 0.0
    else SqDist(x, z, len - 1) + (x[len - 1] - z[len - 1]) * (x[len - 1] - z[len - 1])
  }

  /** Linear kernel: the dot product; RBF kernel: `exp(-gamma * ||x - z||^2)`. */
  function Kernel(kind: KernelType, gamma: real, t: Transcendentals, x: seq<real>, z: seq<real>, len: nat): real
    requires len <= |x| && len <= |z|
  {
    match kind
    case Linear => Dot(x, z, len)
    case Rbf => t.exp(RbfExponent(gamma, SqDist(x, z, len)))
  }

  /** The argument `-gamma * sum` that the RBF kernel passes to `exp`. */
  function RbfExponent(gamma: real, sqDist: real): real {
    -gamma * sqDist
  }

  lemma {:induction false} SqDistNonneg(x: seq<real>, z: seq<real>, len: nat)
    requires len <= |x| && len <= |z|
    ensures 0.0 <= SqDist(x, z, len)
  {
    if len > 0 {
      SqDistNonneg(x, z, len - 1);
      var d := x[len - 1] - z[len - 1];
      SquareNonneg(d, d * d);
    }
  }

  lemma {:induction false} SqDistSelf(x: seq<real>, len: nat)
    requires len <= |x|
    ensures SqDist(x, x, len) == 0.0
  {
    if len > 0 {
      SqDistSelf(x, len - 1);
    }
  }

  lemma {:induction false} DotSymmetric(x: seq<real>, z: seq<real>, len: nat)
    requires len <= |x| && len <= |z|
    ensures Dot(x, z, len) == Dot(z, x, len)
  {
    if len > 0 {
      DotSymmetric(x, z, len - 1);
    }
  }

  lemma {:induction false} SqDistSymmetric(x: seq<real>, z: seq<real>, len: nat)
    requires len <= |x| && len <= |z|
    ensures SqDist(x, z, len) == SqDist(z, x, len)
  {
    if len > 0 {
      SqDistSymmetric(x, z, len - 1);
    }
  }

  /** Both kernels are symmetric in their two vectors. */
  lemma KernelSymmetric(kind: KernelType, gamma: real, t: Transcendentals, x: seq<real>, z: seq<real>, len: nat)
    requires len <= |x| && len <= |z|
    ensures Kernel(kind, gamma, t, x, z, len) == Kernel(kind, gamma, t, z, x, len)
  {
    match kind
    case Linear =>
      DotSymmetric(x, z, len);
    case Rbf =>
      SqDistSymmetric(x, z, len);
  }

  /** The RBF kernel of a vector with itself is `exp(0)`, that is 1. */
  lemma RbfSelf(gamma: real, t: Transcendentals, x: seq<real>, len: nat)
    requires len <= |x|
    ensures Kernel(Rbf, gamma, t, x, x, len) == t.exp(0.0)
    ensures t.ExpValid() ==> Kernel(Rbf, gamma, t, x, x, len) == 1.0
  {
    SqDistSelf(x, len);
  }

  /** For the linear kernel, the SMO curvature `2k(x,z) - k(x,x) - k(z,z)`
      is minus the squared distance, hence never positive. */
  lemma {:induction false} LinearEta(x: seq<real>, z: seq<real>, len: nat)
    requires len <= |x| && len <= |z|
    ensures 2.0 * Dot(x, z, len) - Dot(x, x, len) - Dot(z, z, len) == -SqDist(x, z, len)
    ensures 2.0 * Dot(x, z, len) - Dot(x, x, len) - Dot(z, z, len) <= 0.0
  {
    if len > 0 {
      LinearEta(x, z, len - 1);
      var a, c := x[len - 1], z[len - 1];
      assert 2.0 * (a * c) - a * a - c * c == -((a - c) * (a - c));
    }
    SqDistNonneg(x, z, len);
  }

  /** The kernel loops of both Java methods: one pass over the first `len`
      components, then `exp` for the RBF kernel. */
  method ComputeKernel(kind: KernelType, gamma: real, t: Transcendentals, x: seq<real>, z: seq<real>, len: nat)
    returns (r: real)
    requires len <= |x| && len <= |z|
    ensures r == Kernel(kind, gamma, t, x, z, len)
  {
    var sum := 0.0;
    var i := 0;
    if kind == Linear {
      while i < len
        invariant 0 <= i <= len && sum == Dot(x, z, i)
      {
        sum := sum + x[i] * z[i];
        i := i + 1;
      }
      r := sum;
    } else {
      while i < len
        invariant 0 <= i <= len && sum == SqDist(x, z, i)
      {
        var diff := x[i] - z[i];
        sum := sum + diff * diff;
        i := i + 1;
      }
      r := t.exp(RbfExponent(gamma, sum));
    }
  }
}
