/** The SMO solver as the Java class runs it (src/SVM/SMOTrainer.java): the
    multipliers live in an array that every step updates in place, the bias
    in a field, and `train` keeps a cache of the errors in an array of its own.
    Each method is tied to the pure step of `SmoSpec`. */
module Smo {
  import opened Numerics
  import opened Kernels
  import opened SmoSpec

  /** The pass counter of line 133 after sweeps whose change counts are
      `h`: the number of trailing sweeps that changed nothing. */
  function TrailingZeros(h: seq<nat>): (r: nat)
    ensures r <= |h|
  {
    if |h| == 0 || h[|h| - 1] != 0 then 0 else TrailingZeros(h[..|h| - 1]) + 1
  }

  /** The counter reaches `k` exactly when the last `k` sweeps changed nothing. */
  lemma {:induction false} TrailingZerosMeans(h: seq<nat>, k: nat)
    ensures TrailingZeros(h) >= k <==> k <= |h| && forall t :: |h| - k <= t < |h| ==> h[t] == 0
  {
    if k > 0 && |h| > 0 && h[|h| - 1] == 0 {
      var front := h[..|h| - 1];
      TrailingZerosMeans(front, k - 1);
      if TrailingZeros(h) >= k {
        forall t | |h| - k <= t < |h|
          ensures h[t] == 0
        {
          if t < |h| - 1 {
            assert h[t] == front[t];
          }
        }
      }
    }
  }

  /** The number of `true` entries of `s`. */
  function CountTrue(s: seq<bool>): (r: nat)
    ensures r <= |s|
  {
    if |s| == 0 then 0 else CountTrue(s[..|s| - 1]) + (if s[|s| - 1] then 1 else 0)
  }

  /** The solver's state between two attempts: the multipliers, the error
      cache and the bias. */
  datatype SolverState = SolverState(alphas: seq<real>, errors: seq<real>, b: real)
  {
    /** One multiplier and one cached error per sample of `p`. */
    predicate Fits(p: Problem) {
      |alphas| == |p.xs| && |errors| == |p.xs|
    }
  }

  /** `j` is a partner `selectJ(i)` may return on the cache `e`: it maximises
      `|E_i - E_k|` over `k != i`, and it is the first index that does unless
      every difference is zero (the random fallback). */
  ghost predicate IsPartner(e: seq<real>, i: nat, j: nat)
    requires i < |e|
  {
    && j < |e| && j != i
    && (forall k :: 0 <= k < |e| && k != i ==> Abs(e[i] - e[k]) <= Abs(e[i] - e[j]))
    && ((exists k :: 0 <= k < |e| && k != i && Abs(e[i] - e[k]) > 0.0) ==>
          forall k :: 0 <= k < j && k != i ==> Abs(e[i] - e[k]) < Abs(e[i] - e[j]))
  }

  /** `s1` is the state after attempting the pair `(i, j)` from `s0`, as
      `Step` prescribes; `changed` says whether the attempt counts as a
      change (lines 89-129). */
  ghost predicate Applied(p: Problem, i: nat, j: nat, s0: SolverState, s1: SolverState, changed: bool)
    requires p.WellFormed() && s0.Fits(p) && i < |p.xs| && j < |p.xs|
  {
    var s := Step(p.ys[i], p.ys[j], s0.alphas[i], s0.alphas[j], s0.errors[i], s0.errors[j], s0.b,
                  p.K(i, i), p.K(i, j), p.K(j, j), p.C);
    && changed == s.Update?
    && match s
       case Skip => s1 == s0
       case Abandon(aj) => s1 == s0.(alphas := s0.alphas[j := aj])
       case Update(ai, aj, newB) =>
         && s1.alphas == s0.alphas[i := ai][j := aj] && s1.b == newB && |s1.errors| == |p.xs|
         && forall k :: 0 <= k < |p.xs| ==> s1.errors[k] == Error(p, s1.alphas, s1.b, k)
  }

  /** One iteration of the loop of line 83 on sample `i`: a sample that
      passes the test of line 85 is paired with a `selectJ` partner `j`;
      any other sample changes nothing. */
  ghost predicate Attempted(p: Problem, i: nat, j: nat, s0: SolverState, s1: SolverState, changed: bool)
    requires p.WellFormed() && s0.Fits(p) && i < |p.xs|
  {
    if Eligible(p.ys[i], s0.errors[i], s0.alphas[i], p.C) then
      IsPartner(s0.errors, i, j) && Applied(p, i, j, s0, s1, changed)
    else
      !changed && s1 == s0
  }

  /** The first `|partners|` attempts of a sweep: `states[t]` is the state
      before the attempt on sample `t` and `states[t + 1]` the state after it,
      `partners[t]` the `j` it used and `updates[t]` whether it counted. */
  ghost predicate SweepTrace(p: Problem, states: seq<SolverState>, partners: seq<nat>, updates: seq<bool>)
    requires p.WellFormed()
  {
    && |partners| <= |p.xs| && |updates| == |partners| && |states| == |partners| + 1
    && (forall t :: 0 <= t < |states| ==> states[t].Fits(p))
    && forall t :: 0 <= t < |partners| ==> Attempted(p, t, partners[t], states[t], states[t + 1], updates[t])
  }

  /** One whole sweep of lines 82-131 leads from `s0` to `s1`, and `count`
      (`numChangedAlphas`) is the number of its attempts that updated the pair. */
  ghost predicate SweepStep(p: Problem, s0: SolverState, s1: SolverState, count: nat)
    requires p.WellFormed()
  {
    exists states: seq<SolverState>, partners: seq<nat>, updates: seq<bool> ::
      && SweepTrace(p, states, partners, updates) && |partners| == |p.xs|
      && states[0] == s0 && states[|p.xs|] == s1 && count == CountTrue(updates)
  }

  /** The run of `train` (lines 74-135): `states[t]` is the state before
      sweep `t` and `history[t]` that sweep's change count. The cache starts
      as `f(X[k]) - y[k]`, and every sweep began while fewer than `maxPasses`
      trailing sweeps had changed nothing. */
  ghost predicate TrainTrace(p: Problem, states: seq<SolverState>, history: seq<nat>)
    requires p.WellFormed()
  {
    && |states| == |history| + 1
    && (forall t :: 0 <= t < |states| ==> states[t].Fits(p))
    && (forall k :: 0 <= k < |p.xs| ==> states[0].errors[k] == Error(p, states[0].alphas, states[0].b, k))
    && (forall t :: 0 <= t < |history| ==> SweepStep(p, states[t], states[t + 1], history[t]))
    && (forall t :: 0 <= t < |history| ==> TrailingZeros(history[..t]) < MaxPasses)
  }

  /** One more attempt extends a sweep's trace and its count. */
  lemma ExtendSweep(p: Problem, states: seq<SolverState>, partners: seq<nat>, updates: seq<bool>,
                    j: nat, s: SolverState, changed: bool)
    requires p.WellFormed() && SweepTrace(p, states, partners, updates) && |partners| < |p.xs|
    requires s.Fits(p) && Attempted(p, |partners|, j, states[|partners|], s, changed)
    ensures SweepTrace(p, states + [s], partners + [j], updates + [changed])
    ensures CountTrue(updates + [changed]) == CountTrue(updates) + (if changed then 1 else 0)
  {
    assert (updates + [changed])[..|updates|] == updates;
  }

  /** One more sweep extends the run, provided the counter was below `maxPasses`. */
  lemma ExtendRun(p: Problem, states: seq<SolverState>, history: seq<nat>, s: SolverState, count: nat)
    requires p.WellFormed() && TrainTrace(p, states, history) && TrailingZeros(history) < MaxPasses
    requires s.Fits(p) && SweepStep(p, states[|history|], s, count)
    ensures TrainTrace(p, states + [s], history + [count])
  {
    var h, st := history + [count], states + [s];
    forall t | 0 <= t < |h|
      ensures SweepStep(p, st[t], st[t + 1], h[t]) && TrailingZeros(h[..t]) < MaxPasses
    {
      if t < |history| {
        assert st[t] == states[t] && st[t + 1] == states[t + 1] && h[t] == history[t] && h[..t] == history[..t];
      } else {
        assert h[..t] == history;
      }
    }
  }

  /** An attempt that does not count changes neither the bias nor the cache. */
  lemma QuietAttempt(p: Problem, i: nat, j: nat, s0: SolverState, s1: SolverState)
    requires p.WellFormed() && s0.Fits(p) && i < |p.xs| && Attempted(p, i, j, s0, s1, false)
    ensures s1.b == s0.b && s1.errors == s0.errors
  {
  }

  /** A trace without updates keeps the bias and the cache of its first state. */
  lemma {:induction false} QuietTrace(p: Problem, states: seq<SolverState>, partners: seq<nat>, updates: seq<bool>)
    requires p.WellFormed() && SweepTrace(p, states, partners, updates) && CountTrue(updates) == 0
    ensures states[|partners|].b == states[0].b && states[|partners|].errors == states[0].errors
    decreases |partners|
  {
    var n := |partners|;
    if n > 0 {
      var front := updates[..n - 1];
      assert SweepTrace(p, states[..n], partners[..n - 1], front) by {
        forall t | 0 <= t < n - 1
          ensures Attempted(p, t, partners[..n - 1][t], states[..n][t], states[..n][t + 1], front[t])
        {
          assert Attempted(p, t, partners[t], states[t], states[t + 1], updates[t]);
        }
      }
      QuietTrace(p, states[..n], partners[..n - 1], front);
      assert Attempted(p, n - 1, partners[n - 1], states[n - 1], states[n], updates[n - 1]);
      QuietAttempt(p, n - 1, partners[n - 1], states[n - 1], states[n]);
    }
  }

  /** A sweep that counts no change (`numChangedAlphas == 0`) leaves the bias
      and the error cache as they were; an abandoned step may still have
      moved a multiplier. */
  lemma SweepWithoutChanges(p: Problem, s0: SolverState, s1: SolverState)
    requires p.WellFormed() && SweepStep(p, s0, s1, 0)
    ensures s1.b == s0.b && s1.errors == s0.errors
  {
    var states, partners, updates :| && SweepTrace(p, states, partners, updates) && |partners| == |p.xs|
                                      && states[0] == s0 && states[|p.xs|] == s1 && 0 == CountTrue(updates);
    QuietTrace(p, states, partners, updates);
  }

  /** Sweeps `lo ..` of a run that all counted no change keep the bias and
      the cache of the state before sweep `lo`. */
  lemma {:induction false} QuietSweeps(p: Problem, states: seq<SolverState>, history: seq<nat>, lo: nat)
    requires p.WellFormed() && |states| == |history| + 1 && lo <= |history|
    requires forall t :: 0 <= t < |history| ==> SweepStep(p, states[t], states[t + 1], history[t])
    requires forall t :: lo <= t < |history| ==> history[t] == 0
    ensures states[|history|].b == states[lo].b && states[|history|].errors == states[lo].errors
    decreases |history| - lo
  {
    if lo < |history| {
      QuietSweeps(p, states, history, lo + 1);
      SweepWithoutChanges(p, states[lo], states[lo + 1]);
    }
  }

  /** When `train` returns by the `maxPasses` rule, the last `maxPasses`
      sweeps left the bias and the error cache unchanged. */
  lemma ConvergedRunIsQuiet(p: Problem, states: seq<SolverState>, history: seq<nat>)
    requires p.WellFormed() && TrainTrace(p, states, history) && MaxPasses <= |history|
    requires forall t :: |history| - MaxPasses <= t < |history| ==> history[t] == 0
    ensures states[|history|].b == states[|history| - MaxPasses].b
    ensures states[|history|].errors == states[|history| - MaxPasses].errors
  {
    QuietSweeps(p, states, history, |history| - MaxPasses);
  }

  class SmoTrainer {
    /** `X` and `y`: the samples and their labels. */
    const xs: seq<seq<real>>
    const ys: seq<int>
    const C: real
    const kind: KernelType
    const gamma: real
    const math: Transcendentals
    /** `m = X.length` and `n = X[0].length`. */
    const m: nat
    const n: nat
    const alphas: array<real>
    var b: real

    /** The training problem this solver works on. */
    ghost function Prob(): Problem {
      Problem(xs, ys, n, kind, gamma, math, C)
    }

    ghost predicate Valid()
      reads alphas
    {
      && Prob().WellFormed()
      && m == |xs| && alphas.Length == m
      && InBox(alphas[..], C)
    }

    /** Lines 34-44: all multipliers and the bias start at zero. The source
        reads `X[0]`, so at least one sample is needed. */
    constructor (X: seq<seq<real>>, y: seq<int>, C: real, kind: KernelType, gamma: real, math: Transcendentals)
      requires 1 <= |X| && |y| == |X|
      requires forall i :: 0 <= i < |X| ==> |X[0]| <= |X[i]|
      requires forall i :: 0 <= i < |y| ==> IsLabel(y[i])
      requires 0.0 <= C
      ensures Valid() && fresh(alphas)
      ensures xs == X && ys == y && this.C == C && this.kind == kind && this.gamma == gamma && this.math == math
      ensures m == |X| && n == |X[0]|
      ensures alphas[..] == seq(|X|, _ => 0.0) && b == 0.0
    {
      xs := X;
      ys := y;
      this.C := C;
      m := |X|;
      n := |X[0]|;
      alphas := new real[|X|](_ => 0.0);
      b := 0.0;
      this.kind := kind;
      this.gamma := gamma;
      this.math := math;
    }

    /** `f(x)` of lines 64-72: the kernel expansion over the samples with a
        positive multiplier, plus the bias. */
    method Eval(x: seq<real>) returns (r: real)
      requires Valid() && n <= |x|
      ensures r == F(Prob(), alphas[..], b, x)
    {
      ghost var ks := KernelColumn(Prob(), x);
      var sum := 0.0;
      for i := 0 to m
        invariant sum == Margin(alphas[..], ys, ks, i)
      {
        if alphas[i] > 0.0 {
          var kv := ComputeKernel(kind, gamma, math, xs[i], x, n);
          sum := sum + alphas[i] * ys[i] as real * kv;
        }
      }
      r := sum + b;
    }

    /** Lines 76-79 and 127-129: every cached error becomes `f(X[k]) - y[k]`. */
    method RecomputeErrors(errors: array<real>)
      requires Valid() && errors.Length == m && errors != alphas
      modifies errors
      ensures forall k :: 0 <= k < m ==> errors[k] == Error(Prob(), alphas[..], b, k)
    {
      for k := 0 to m
        invariant forall t :: 0 <= t < k ==> errors[t] == Error(Prob(), alphas[..], b, t)
      {
        var fk := Eval(xs[k]);
        errors[k] := fk - ys[k] as real;
      }
    }

    /** `selectJ` of lines 137-155: the first index `k != i` with the largest
        `|E_i - E_k|`. When every such difference is zero the source draws a
        random index other than `i`; that draw is an arbitrary choice here. */
    method SelectJ(i: nat, errors: array<real>) returns (j: nat)
      requires errors.Length == m && i < m && 2 <= m
      ensures j < m && j != i
      ensures forall k :: 0 <= k < m && k != i ==> Abs(errors[i] - errors[k]) <= Abs(errors[i] - errors[j])
      ensures (exists k :: 0 <= k < m && k != i && Abs(errors[i] - errors[k]) > 0.0) ==>
                forall k :: 0 <= k < j && k != i ==> Abs(errors[i] - errors[k]) < Abs(errors[i] - errors[j])
    {
      var best := -1;
      var maxDelta := 0.0;
      for k := 0 to m
        invariant -1 <= best < k && best != i
        invariant best == -1 ==> maxDelta == 0.0
        invariant best != -1 ==> 0.0 < maxDelta == Abs(errors[i] - errors[best])
        invariant forall t :: 0 <= t < k && t != i ==> Abs(errors[i] - errors[t]) <= maxDelta
        invariant best != -1 ==> forall t :: 0 <= t < best && t != i ==> Abs(errors[i] - errors[t]) < maxDelta
      {
        if k != i {
          var delta := Abs(errors[i] - errors[k]);
          if delta > maxDelta {
            maxDelta := delta;
            best := k;
          }
        }
      }
      if best == -1 {
        assert i == 0 ==> 1 != i;
        j :| j < m && j != i;
      } else {
        j := best;
      }
    }

    /** The current multipliers, the cache `errors` and the bias. */
    ghost function State(errors: array<real>): (r: SolverState)
      reads this, alphas, errors
      ensures r.alphas == alphas[..] && r.errors == errors[..] && r.b == b
    {
      SolverState(alphas[..], errors[..], b)
    }

    /** Lines 89-103 for the pair `(i, j)`: the bounds `L` and `H` and the
        curvature `eta`; a pair with `L == H` or `eta >= 0` is skipped. */
    method UpdatePair(i: nat, j: nat, errors: array<real>) returns (changed: bool)
      requires Valid() && errors.Length == m && errors != alphas
      requires i < m && j < m && i != j
      modifies this, alphas, errors
      ensures Valid()
      ensures Applied(Prob(), i, j, SolverState(old(alphas[..]), old(errors[..]), old(b)), State(errors), changed)
      ensures !changed ==> b == old(b) && errors[..] == old(errors[..])
    {
      var ei, ej := errors[i], errors[j];
      var lo, hi;
      if ys[i] != ys[j] {
        lo := MaxReal(0.0, alphas[j] - alphas[i]);
        hi := MinReal(C, C + alphas[j] - alphas[i]);
      } else {
        lo := MaxReal(0.0, alphas[i] + alphas[j] - C);
        hi := MinReal(C, alphas[i] + alphas[j]);
      }
      if lo == hi {
        return false;
      }
      var kij := ComputeKernel(kind, gamma, math, xs[i], xs[j], n);
      var kii := ComputeKernel(kind, gamma, math, xs[i], xs[i], n);
      var kjj := ComputeKernel(kind, gamma, math, xs[j], xs[j], n);
      var eta := 2.0 * kij - kii - kjj;
      if eta >= 0.0 {
        return false;
      }
      changed := MovePair(i, j, errors, ei, ej, lo, hi, kii, kij, kjj, eta);
    }

    /** Lines 105-129: move `alphas[j]` to its clipped optimum; unless it
        moved by less than `eps`, move `alphas[i]` along the constraint,
        choose the bias and recompute the error cache. */
    method MovePair(i: nat, j: nat, errors: array<real>, ei: real, ej: real, lo: real, hi: real,
                    kii: real, kij: real, kjj: real, eta: real) returns (changed: bool)
      requires Valid() && errors.Length == m && errors != alphas
      requires i < m && j < m && i != j
      requires lo == LowerBound(ys[i], ys[j], alphas[i], alphas[j], C)
      requires hi == UpperBound(ys[i], ys[j], alphas[i], alphas[j], C)
      requires eta == Eta(kii, kij, kjj) < 0.0
      modifies this, alphas, errors
      ensures Valid()
      ensures var newJ := ClipAlpha(NextAlphaJ(ys[j], old(alphas[j]), ei, ej, eta), lo, hi);
        if Abs(newJ - old(alphas[j])) < Eps then
          && !changed && alphas[..] == old(alphas[..])[j := newJ]
          && b == old(b) && errors[..] == old(errors[..])
        else
          var newI := PairedAlphaI(ys[i], ys[j], old(alphas[i]), old(alphas[j]), newJ);
          var deltaI, deltaJ := newI - old(alphas[i]), newJ - old(alphas[j]);
          && changed && alphas[..] == old(alphas[..])[i := newI][j := newJ]
          && b == NewBias(newI, newJ, C, PairBias(old(b), ei, ys[i], ys[j], deltaI, deltaJ, kii, kij),
                                         PairBias(old(b), ej, ys[i], ys[j], deltaI, deltaJ, kij, kjj))
          && forall k :: 0 <= k < m ==> errors[k] == Error(Prob(), alphas[..], b, k)
    {
      BoundsInBox(ys[i], ys[j], alphas[i], alphas[j], C);
      var alphaIOld, alphaJOld := alphas[i], alphas[j];
      alphas[j] := NextAlphaJ(ys[j], alphas[j], ei, ej, eta);
      alphas[j] := ClipAlpha(alphas[j], lo, hi);
      if Abs(alphas[j] - alphaJOld) < Eps {
        return false;
      }
      CommitPair(i, j, errors, ei, ej, kii, kij, kjj, alphaJOld);
      changed := true;
    }

    /** The rest of a pair update once `alphas[j]` has moved far enough
        (lines 110-128): `alphas[i]` follows, the bias is chosen and the error
        cache is refreshed. */
    method CommitPair(i: nat, j: nat, errors: array<real>, ei: real, ej: real,
                      kii: real, kij: real, kjj: real, alphaJOld: real)
      requires Valid() && errors.Length == m && errors != alphas
      requires i < m && j < m && i != j && 0.0 <= alphaJOld <= C
      requires LowerBound(ys[i], ys[j], alphas[i], alphaJOld, C) <= alphas[j] <= UpperBound(ys[i], ys[j], alphas[i], alphaJOld, C)
      modifies this, alphas, errors
      ensures Valid()
      ensures var newJ := old(alphas[j]);
        var newI := PairedAlphaI(ys[i], ys[j], old(alphas[i]), alphaJOld, newJ);
        var deltaI, deltaJ := newI - old(alphas[i]), newJ - alphaJOld;
        && alphas[..] == old(alphas[..])[i := newI]
        && b == NewBias(newI, newJ, C, PairBias(old(b), ei, ys[i], ys[j], deltaI, deltaJ, kii, kij),
                                       PairBias(old(b), ej, ys[i], ys[j], deltaI, deltaJ, kij, kjj))
        && forall k :: 0 <= k < m ==> errors[k] == Error(Prob(), alphas[..], b, k)
    {
      var alphaIOld := alphas[i];
      PairedAlphaInBox(ys[i], ys[j], alphaIOld, alphaJOld, alphas[j], C);
      alphas[i] := PairedAlphaI(ys[i], ys[j], alphaIOld, alphaJOld, alphas[j]);
      var deltaI, deltaJ := alphas[i] - alphaIOld, alphas[j] - alphaJOld;
      var b1 := PairBias(b, ei, ys[i], ys[j], deltaI, deltaJ, kii, kij);
      var b2 := PairBias(b, ej, ys[i], ys[j], deltaI, deltaJ, kij, kjj);
      if 0.0 < alphas[i] && alphas[i] < C {
        b := b1;
      } else if 0.0 < alphas[j] && alphas[j] < C {
        b := b2;
      } else {
        b := (b1 + b2) / 2.0;
      }
      RecomputeErrors(errors);
    }

    /** One iteration of the loop of line 83: a sample that passes the KKT
        test of line 85 is paired with `selectJ(i)`; any other sample is
        left alone. */
    method AttemptPair(i: nat, errors: array<real>) returns (changed: bool, ghost j: nat)
      requires Valid() && errors.Length == m && errors != alphas && i < m && 2 <= m
      modifies this, alphas, errors
      ensures Valid()
      ensures Attempted(Prob(), i, j, SolverState(old(alphas[..]), old(errors[..]), old(b)), State(errors), changed)
      ensures !changed ==> b == old(b) && errors[..] == old(errors[..])
    {
      j := 0;
      var ei := errors[i];
      if Eligible(ys[i], ei, alphas[i], C) {
        var partner := SelectJ(i, errors);
        j := partner;
        changed := UpdatePair(i, partner, errors);
      } else {
        changed := false;
      }
    }

    /** One pass of lines 82-131 over all samples: the attempts on samples
        `0 .. m-1` in order, with `numChangedAlphas` counting those that
        updated a pair. */
    method Sweep(errors: array<real>) returns (numChanged: nat)
      requires Valid() && errors.Length == m && errors != alphas && 2 <= m
      modifies this, alphas, errors
      ensures Valid() && numChanged <= m
      ensures SweepStep(Prob(), SolverState(old(alphas[..]), old(errors[..]), old(b)), State(errors), numChanged)
      ensures numChanged == 0 ==> b == old(b) && errors[..] == old(errors[..])
    {
      numChanged := 0;
      ghost var states := [State(errors)];
      ghost var partners: seq<nat> := [];
      ghost var updates: seq<bool> := [];
      for i := 0 to m
        invariant Valid() && numChanged <= i
        invariant SweepTrace(Prob(), states, partners, updates) && |partners| == i
        invariant states[0] == SolverState(old(alphas[..]), old(errors[..]), old(b)) && states[i] == State(errors)
        invariant numChanged == CountTrue(updates)
        invariant numChanged == 0 ==> b == old(b) && errors[..] == old(errors[..])
      {
        var changed, j := AttemptPair(i, errors);
        ExtendSweep(Prob(), states, partners, updates, j, State(errors), changed);
        states, partners, updates := states + [State(errors)], partners + [j], updates + [changed];
        if changed {
          numChanged := numChanged + 1;
        }
      }
    }

    /** `train` of lines 74-135, bounded by `fuel` sweeps: the source loops
        until `maxPasses` consecutive sweeps change nothing, which need not
        happen. `states` and `history` record the run: the state before every
        sweep and after the last, and every sweep's change count. */
    method Train(fuel: nat) returns (converged: bool, ghost history: seq<nat>, ghost states: seq<SolverState>)
      requires Valid() && 2 <= m
      modifies this, alphas
      ensures Valid()
      ensures TrainTrace(Prob(), states, history)
      ensures states[0].alphas == old(alphas[..]) && states[0].b == old(b)
      ensures states[|history|].alphas == alphas[..] && states[|history|].b == b
      ensures |history| <= fuel
      ensures converged <==> TrailingZeros(history) >= MaxPasses
      ensures converged ==> forall t :: |history| - MaxPasses <= t < |history| ==> history[t] == 0
      ensures !converged ==> |history| == fuel
    {
      var passes := 0;
      var errors := new real[m];
      RecomputeErrors(errors);
      history := [];
      states := [State(errors)];
      var sweeps := 0;
      while passes < MaxPasses && sweeps < fuel
        invariant Valid() && fresh(errors) && errors.Length == m
        invariant passes == TrailingZeros(history) <= MaxPasses
        invariant sweeps == |history| <= fuel
        invariant TrainTrace(Prob(), states, history)
        invariant states[0].alphas == old(alphas[..]) && states[0].b == old(b)
        invariant states[|history|] == State(errors)
        decreases fuel - sweeps
      {
        var numChanged := Sweep(errors);
        ExtendRun(Prob(), states, history, State(errors), numChanged);
        assert (history + [numChanged])[..|history|] == history;
        history, states := history + [numChanged], states + [State(errors)];
        passes := if numChanged == 0 then passes + 1 else 0;
        sweeps := sweeps + 1;
      }
      converged := passes >= MaxPasses;
      TrailingZerosMeans(history, MaxPasses);
    }
  }
}
