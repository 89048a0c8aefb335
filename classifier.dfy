/** The trained classifier (src/SVM/SVMClassifier.java): it runs the SMO
    solver, keeps the samples whose multiplier exceeds `1e-6` as support
    vectors in three parallel arrays, and classifies by the sign of the
    kernel expansion plus the bias. */
module Classifier {
  import opened Numerics
  import opened Kernels
  import opened SmoSpec
  import opened Smo

  /** The multiplier a sample must exceed to be kept (line 34). */
  const SupportThreshold: real := 0.000001

  /** The indices below `upto` whose multiplier exceeds the threshold, in
      increasing order: the samples the filter of lines 33-39 keeps. */
  function SupportIndices(alphas: seq<real>, upto: nat): (r: seq<nat>)
    requires upto <= |alphas|
    ensures forall t :: 0 <= t < |r| ==> r[t] < upto
  {
    if upto == 0 then []
    else
      var front := SupportIndices(alphas, upto - 1);
      if alphas[upto - 1] > SupportThreshold then front + [upto - 1] else front
  }

  /** The kept indices are exactly those whose multiplier exceeds `1e-6`,
      each once, in increasing order. */
  lemma {:induction false} SupportIndicesExact(alphas: seq<real>, upto: nat)
    requires upto <= |alphas|
    ensures forall t :: 0 <= t < |SupportIndices(alphas, upto)| ==> alphas[SupportIndices(alphas, upto)[t]] > SupportThreshold
    ensures forall s, t :: 0 <= s < t < |SupportIndices(alphas, upto)| ==> SupportIndices(alphas, upto)[s] < SupportIndices(alphas, upto)[t]
    ensures forall k :: 0 <= k < upto && alphas[k] > SupportThreshold ==> k in SupportIndices(alphas, upto)
  {
    if upto > 0 {
      SupportIndicesExact(alphas, upto - 1);
      var front := SupportIndices(alphas, upto - 1);
      if alphas[upto - 1] > SupportThreshold {
        var r := front + [upto - 1];
        assert SupportIndices(alphas, upto) == r;
        forall k | 0 <= k < upto && alphas[k] > SupportThreshold
          ensures k in r
        {
          if k < upto - 1 {
            assert k in front;
          } else {
            assert r[|front|] == k;
          }
        }
      }
    }
  }

  /** The entries of `items` at the kept indices, appended in index order as
      the lists of lines 29-39 grow. */
  function Kept<T>(items: seq<T>, alphas: seq<real>, upto: nat): seq<T>
    requires upto <= |items| && upto <= |alphas|
  {
    if upto == 0 then []
    else Kept(items, alphas, upto - 1) + (if alphas[upto - 1] > SupportThreshold then [items[upto - 1]] else [])
  }

  /** The `t`-th kept entry is the item at the `t`-th kept index, so the
      three lists are parallel and of equal length. */
  lemma {:induction false} KeptIsSelection<T>(items: seq<T>, alphas: seq<real>, upto: nat)
    requires upto <= |items| && upto <= |alphas|
    ensures |Kept(items, alphas, upto)| == |SupportIndices(alphas, upto)|
    ensures forall t :: 0 <= t < |SupportIndices(alphas, upto)| ==>
              Kept(items, alphas, upto)[t] == items[SupportIndices(alphas, upto)[t]]
  {
    if upto > 0 {
      KeptIsSelection(items, alphas, upto - 1);
      var kept, indices := Kept(items, alphas, upto - 1), SupportIndices(alphas, upto - 1);
      var kept1, indices1 := Kept(items, alphas, upto), SupportIndices(alphas, upto);
      if alphas[upto - 1] > SupportThreshold {
        assert kept1 == kept + [items[upto - 1]];
        assert indices1 == indices + [upto - 1];
        forall t | 0 <= t < |indices1|
          ensures kept1[t] == items[indices1[t]]
        {
          if t < |indices| {
            assert kept1[t] == kept[t] && indices1[t] == indices[t];
          }
        }
      }
    }
  }

  /** `sum_i alphas[i] * labels[i] * kernel(sv_i, x)` over the first `upto`
      support vectors, accumulated left to right; the kernel runs over the
      length of the support vector (`x1.length`, line 67). */
  function Expansion(svs: seq<seq<real>>, labels: seq<int>, alphas: seq<real>, kind: KernelType, gamma: real,
                     t: Transcendentals, x: seq<real>, upto: nat): real
    requires upto <= |svs| && upto <= |labels| && upto <= |alphas|
    requires forall i :: 0 <= i < |svs| ==> |svs[i]| <= |x|
  {
    if upto == 0 then 0.0
    else Expansion(svs, labels, alphas, kind, gamma, t, x, upto - 1)
         + Coefficient(alphas[upto - 1], labels[upto - 1]) * Kernel(kind, gamma, t, svs[upto - 1], x, |svs[upto - 1]|)
  }

  /** The weight `alphas[i] * supportLabels[i]` of one support vector. */
  function Coefficient(alpha: real, y: int): real {
    alpha * y as real
  }

  // ---------------------------------------------------------------------
  // The linear kernel: the expansion is an affine function of `x`
  // ---------------------------------------------------------------------

  /** `w + c * v`, component-wise. */
  function AddScaled(w: seq<real>, c: real, v: seq<real>): (r: seq<real>)
    requires |v| == |w|
    ensures |r| == |w|
    ensures forall k :: 0 <= k < |w| ==> r[k] == w[k] + c * v[k]
  {
    seq(|w|, k requires 0 <= k < |w| => w[k] + c * v[k])
  }

  /** The primal weight vector `w = sum_i alphas[i] * labels[i] * sv_i` over
      the first `upto` support vectors, all of length `n`. */
  function Weights(svs: seq<seq<real>>, labels: seq<int>, alphas: seq<real>, n: nat, upto: nat): (w: seq<real>)
    requires upto <= |svs| && upto <= |labels| && upto <= |alphas|
    requires forall i :: 0 <= i < |svs| ==> |svs[i]| == n
    ensures |w| == n
  {
    if upto == 0 then seq(n, _ => 0.0)
    else AddScaled(Weights(svs, labels, alphas, n, upto - 1), Coefficient(alphas[upto - 1], labels[upto - 1]), svs[upto - 1])
  }

  /** The dot product is linear in its first argument. */
  lemma {:induction false} DotAddScaled(w: seq<real>, c: real, v: seq<real>, x: seq<real>, len: nat)
    requires |v| == |w| && len <= |w| && len <= |x|
    ensures Dot(AddScaled(w, c, v), x, len) == Dot(w, x, len) + c * Dot(v, x, len)
  {
    if len > 0 {
      DotAddScaled(w, c, v, x, len - 1);
      var l := len - 1;
      assert AddScaled(w, c, v)[l] * x[l] == w[l] * x[l] + c * (v[l] * x[l]);
    }
  }

  lemma {:induction false} DotZeros(n: nat, x: seq<real>, len: nat)
    requires len <= n && len <= |x|
    ensures Dot(seq(n, _ => 0.0), x, len) == 0.0
  {
    if len > 0 {
      DotZeros(n, x, len - 1);
    }
  }

  /** With the linear kernel the decision value is `w . x + b`. */
  lemma {:induction false} LinearExpansion(svs: seq<seq<real>>, labels: seq<int>, alphas: seq<real>, gamma: real,
                                           t: Transcendentals, n: nat, x: seq<real>, upto: nat)
    requires upto <= |svs| && upto <= |labels| && upto <= |alphas|
    requires forall i :: 0 <= i < |svs| ==> |svs[i]| == n
    requires n <= |x|
    ensures Expansion(svs, labels, alphas, Linear, gamma, t, x, upto) == Dot(Weights(svs, labels, alphas, n, upto), x, n)
  {
    if upto == 0 {
      DotZeros(n, x, n);
    } else {
      var u := upto - 1;
      LinearExpansion(svs, labels, alphas, gamma, t, n, x, u);
      var c := Coefficient(alphas[u], labels[u]);
      assert Kernel(Linear, gamma, t, svs[u], x, |svs[u]|) == Dot(svs[u], x, n);
      LinearStep(Expansion(svs, labels, alphas, Linear, gamma, t, x, u), Expansion(svs, labels, alphas, Linear, gamma, t, x, upto),
                 Weights(svs, labels, alphas, n, u), Weights(svs, labels, alphas, n, upto), c, svs[u], x, n);
    }
  }

  /** One support vector more: the expansion grows by `c * (sv . x)` and the
      weight vector by `c * sv`. */
  lemma LinearStep(before: real, after: real, w: seq<real>, w1: seq<real>, c: real, sv: seq<real>, x: seq<real>, n: nat)
    requires |w| == n && |sv| == n && n <= |x|
    requires before == Dot(w, x, n) && w1 == AddScaled(w, c, sv) && after == before + c * Dot(sv, x, n)
    ensures after == Dot(w1, x, n)
  {
    DotAddScaled(w, c, sv, x, n);
  }

  class SvmClassifier {
    var supportVectors: seq<seq<real>>
    var supportLabels: seq<int>
    var alphas: seq<real>
    var b: real
    var gamma: real
    var kind: KernelType
    /** The `Math.exp` the RBF kernel calls. */
    const math: Transcendentals

    /** The three support-vector arrays are parallel. */
    ghost predicate Valid()
      reads this
    {
      |supportLabels| == |supportVectors| && |alphas| == |supportVectors|
    }

    /** Field defaults of lines 18-19; no support vectors yet. */
    constructor (math: Transcendentals)
      ensures Valid() && this.math == math
      ensures gamma == 0.05 && kind == Linear
      ensures supportVectors == [] && b == 0.0
    {
      supportVectors := [];
      supportLabels := [];
      alphas := [];
      b := 0.0;
      gamma := 0.05;
      kind := Linear;
      this.math := math;
    }

    /** Lines 28-44 after the solver has run: keep the samples whose
        multiplier exceeds `1e-6`, in input order, and take `b` unchanged. */
    method Adopt(X: seq<seq<real>>, y: seq<int>, fullAlphas: seq<real>, solverB: real)
      requires |fullAlphas| <= |X| && |fullAlphas| <= |y|
      modifies this
      ensures Valid()
      ensures supportVectors == Kept(X, fullAlphas, |fullAlphas|)
      ensures supportLabels == Kept(y, fullAlphas, |fullAlphas|)
      ensures alphas == Kept(fullAlphas, fullAlphas, |fullAlphas|)
      ensures var kept := SupportIndices(fullAlphas, |fullAlphas|);
        && |supportVectors| == |kept|
        && forall t :: 0 <= t < |kept| ==>
             && supportVectors[t] == X[kept[t]] && supportLabels[t] == y[kept[t]] && alphas[t] == fullAlphas[kept[t]]
      ensures b == solverB && gamma == old(gamma) && kind == old(kind)
    {
      var svList: seq<seq<real>> := [];
      var labelList: seq<int> := [];
      var alphaList: seq<real> := [];
      for i := 0 to |fullAlphas|
        invariant svList == Kept(X, fullAlphas, i)
        invariant labelList == Kept(y, fullAlphas, i)
        invariant alphaList == Kept(fullAlphas, fullAlphas, i)
      {
        if fullAlphas[i] > SupportThreshold {
          svList := svList + [X[i]];
          labelList := labelList + [y[i]];
          alphaList := alphaList + [fullAlphas[i]];
        }
      }
      KeptIsSelection(X, fullAlphas, |fullAlphas|);
      KeptIsSelection(y, fullAlphas, |fullAlphas|);
      KeptIsSelection(fullAlphas, fullAlphas, |fullAlphas|);
      supportVectors := svList;
      supportLabels := labelList;
      alphas := alphaList;
      b := solverB;
    }

    /** `train` of lines 21-45: store the kernel settings, run the solver
        from zero multipliers (for at most `fuel` sweeps) and keep the
        support vectors and the bias of its final state. `states` and
        `history` are the solver's run. */
    method Train(X: seq<seq<real>>, y: seq<int>, C: real, kind: KernelType, gamma: real, fuel: nat)
      returns (ghost states: seq<SolverState>, ghost history: seq<nat>)
      requires 2 <= |X| && |y| == |X|
      requires forall i :: 0 <= i < |X| ==> |X[0]| <= |X[i]|
      requires forall i :: 0 <= i < |y| ==> IsLabel(y[i])
      requires 0.0 <= C
      modifies this
      ensures Valid() && this.kind == kind && this.gamma == gamma
      ensures var p := Problem(X, y, |X[0]|, kind, gamma, math, C);
        && p.WellFormed() && TrainTrace(p, states, history)
        && states[0].alphas == seq(|X|, _ => 0.0) && states[0].b == 0.0
      ensures |history| <= fuel && (TrailingZeros(history) >= MaxPasses || |history| == fuel)
      ensures var final := states[|history|];
        && |final.alphas| == |X| && InBox(final.alphas, C)
        && supportVectors == Kept(X, final.alphas, |X|)
        && supportLabels == Kept(y, final.alphas, |X|)
        && alphas == Kept(final.alphas, final.alphas, |X|)
        && b == final.b
    {
      this.kind := kind;
      this.gamma := gamma;
      var trainer := new SmoTrainer(X, y, C, kind, gamma, math);
      var _, h, st := trainer.Train(fuel);
      states, history := st, h;
      Adopt(X, y, trainer.alphas[..], trainer.b);
    }

    /** `decisionFunction` of lines 56-62. */
    method DecisionFunction(x: seq<real>) returns (r: real)
      requires Valid() && forall i :: 0 <= i < |supportVectors| ==> |supportVectors[i]| <= |x|
      ensures r == Expansion(supportVectors, supportLabels, alphas, kind, gamma, math, x, |supportVectors|) + b
      ensures supportVectors == [] ==> r == b
    {
      var sum := 0.0;
      for i := 0 to |supportVectors|
        invariant sum == Expansion(supportVectors, supportLabels, alphas, kind, gamma, math, x, i)
      {
        var kv := ComputeKernel(kind, gamma, math, supportVectors[i], x, |supportVectors[i]|);
        sum := sum + Coefficient(alphas[i], supportLabels[i]) * kv;
      }
      r := sum + b;
    }

    /** `predict` of lines 47-54: the sign of the decision value, with a
        tie going to the positive class. */
    method Predict(x: seq<real>) returns (prediction: int)
      requires Valid() && forall i :: 0 <= i < |supportVectors| ==> |supportVectors[i]| <= |x|
      ensures IsLabel(prediction)
      ensures prediction == 1 <==> Expansion(supportVectors, supportLabels, alphas, kind, gamma, math, x, |supportVectors|) + b >= 0.0
    {
      var sum := DecisionFunction(x);
      prediction := if sum >= 0.0 then 1 else -1;
    }
  }
}
