/** The hierarchical predictor's calibration state machine and its linear predictor
    (core/src/shannon_prime_sqfree.c, `sp_hier_calibrate_begin/feed/end`, `sp_hier_predict`). */
module HierPredictors {
  import opened Matrices
  import opened RealArith
  import opened RidgeTheory
  import opened SpdSolver

  class HierPredictor {
    const padDim: nat
    const skeletonIdx: seq<nat>
    const targetIdx: seq<nat>
    var calibXtX: array2?<real>
    var calibXtY: array2?<real>
    var calibN: nat
    var calibrating: bool
    var calibrated: bool
    var W: array2?<real>

    /** The coefficient vectors fed since calibration began, and the samples they are. */
    ghost var fed: seq<seq<real>>
    ghost var samples: seq<Sample>

    ghost predicate IndicesInRange() {
      && (forall i :: 0 <= i < |skeletonIdx| ==> skeletonIdx[i] < padDim)
      && (forall i :: 0 <= i < |targetIdx| ==> targetIdx[i] < padDim)
    }

    /** While calibrating, the accumulators are exactly X^T X and X^T Y of the vectors fed. */
    ghost predicate Valid()
      reads this, calibXtX, calibXtY
    {
      && IndicesInRange()
      && (W != null ==> W.Length0 == |skeletonIdx| && W.Length1 == |targetIdx|)
      && (calibrating ==>
            && calibXtX != null && calibXtX.Length0 == calibXtX.Length1 == |skeletonIdx|
            && calibXtY != null && calibXtY.Length0 == |skeletonIdx| && calibXtY.Length1 == |targetIdx|
            && calibXtX != calibXtY && W != calibXtX && W != calibXtY
            && calibN == |samples| && AreSamples(samples, fed)
            && Accumulated(calibXtX, calibXtY, samples))
    }

    /** The sample's entries are the coefficients at the skeleton and at the target indices. */
    ghost predicate IsSampleOf(s: Sample, c: seq<real>)
      requires IndicesInRange()
    {
      && |c| == padDim
      && (forall i :: 0 <= i < |skeletonIdx| ==> s.x(i) == c[skeletonIdx[i]])
      && (forall t :: 0 <= t < |targetIdx| ==> s.y(t) == c[targetIdx[t]])
    }

    ghost predicate AreSamples(fs: seq<Sample>, vectors: seq<seq<real>>)
      requires IndicesInRange()
    {
      |fs| == |vectors| && forall k :: 0 <= k < |fs| ==> IsSampleOf(fs[k], vectors[k])
    }

    static ghost predicate Accumulated(X: array2<real>, Y: array2<real>, fs: seq<Sample>)
      reads X, Y
    {
      && (forall i, j :: 0 <= i < X.Length0 && 0 <= j < X.Length1 ==> X[i, j] == Gram(fs, i, j))
      && (forall i, t :: 0 <= i < Y.Length0 && 0 <= t < Y.Length1 ==> Y[i, t] == Cross(fs, i, t))
    }

    /** A coefficient vector split into its skeleton and target parts. */
    ghost function SampleOf(c: seq<real>): Sample {
      Sample(Gather(skeletonIdx, c), Gather(targetIdx, c))
    }

    static ghost function Gather(idx: seq<nat>, c: seq<real>): int -> real {
      (i: int) => if 0 <= i < |idx| && idx[i] < |c| then c[idx[i]] else 0.0
    }

    constructor (padDim: nat, skeletonIdx: seq<nat>, targetIdx: seq<nat>)
      requires forall i :: 0 <= i < |skeletonIdx| ==> skeletonIdx[i] < padDim
      requires forall i :: 0 <= i < |targetIdx| ==> targetIdx[i] < padDim
      ensures Valid() && !calibrating && !calibrated && W == null && calibN == 0
      ensures this.padDim == padDim && this.skeletonIdx == skeletonIdx && this.targetIdx == targetIdx
    {
      this.padDim, this.skeletonIdx, this.targetIdx := padDim, skeletonIdx, targetIdx;
      calibXtX, calibXtY, W := null, null, null;
      calibN, calibrating, calibrated := 0, false, false;
      samples, fed := [], [];
    }

    method CalibrateBegin() returns (rc: int)
      requires Valid()
      modifies this
      ensures Valid() && W == old(W)
      ensures old(calibrating) ==> rc == -1 && samples == old(samples) && calibN == old(calibN)
      ensures old(calibrating) ==> fed == old(fed)
      ensures !old(calibrating) ==> rc == 0 && calibrating && samples == [] && fed == [] && calibN == 0
      ensures !old(calibrating) ==> fresh(calibXtX) && fresh(calibXtY)
      ensures calibrated == old(calibrated)
    {
      if calibrating {
        return -1;
      }
      calibXtX := new real[|skeletonIdx|, |skeletonIdx|]((i, j) => 0.0);
      calibXtY := new real[|skeletonIdx|, |targetIdx|]((i, j) => 0.0);
      calibN, calibrating := 0, true;
      samples, fed := [], [];
      return 0;
    }

    /** Entry (i, j) of the outer product of two vectors. */
    static ghost function Outer(u: int -> real, v: int -> real, i: int, j: int): real {
      u(i) * v(j)
    }

    /** M[i, j] += xi * c[idx[j]] along row i, where xi is entry i of u. */
    static method AddScaledRow(M: array2<real>, i: nat, xi: real, idx: seq<nat>, c: seq<real>, ghost u: int -> real)
      requires i < M.Length0 && M.Length1 == |idx| && xi == u(i)
      requires forall j :: 0 <= j < |idx| ==> idx[j] < |c|
      modifies M
      ensures forall j :: 0 <= j < |idx| ==> M[i, j] == old(M[i, j]) + Outer(u, Gather(idx, c), i, j)
      ensures forall r, j :: 0 <= r < M.Length0 && 0 <= j < |idx| && r != i ==> M[r, j] == old(M[r, j])
    {
      for j := 0 to |idx|
        invariant forall k :: 0 <= k < j ==> M[i, k] == old(M[i, k]) + Outer(u, Gather(idx, c), i, k)
        invariant forall k :: j <= k < |idx| ==> M[i, k] == old(M[i, k])
        invariant forall r, k :: 0 <= r < M.Length0 && 0 <= k < |idx| && r != i ==> M[r, k] == old(M[r, k])
      {
        M[i, j] := M[i, j] + xi * c[idx[j]];
      }
    }

    /** X += x x^T and Y += x y^T for one coefficient vector, row by row. */
    static method AddOuterProducts(X: array2<real>, Y: array2<real>, skeleton: seq<nat>, target: seq<nat>,
                                   c: seq<real>, ghost s: Sample)
      requires X != Y && X.Length0 == X.Length1 == Y.Length0 == |skeleton| && Y.Length1 == |target|
      requires forall i :: 0 <= i < |skeleton| ==> skeleton[i] < |c|
      requires forall i :: 0 <= i < |target| ==> target[i] < |c|
      requires s == Sample(Gather(skeleton, c), Gather(target, c))
      modifies X, Y
      ensures forall i, j :: 0 <= i < X.Length0 && 0 <= j < X.Length1 ==> X[i, j] == old(X[i, j]) + Outer(s.x, s.x, i, j)
      ensures forall i, t :: 0 <= i < Y.Length0 && 0 <= t < Y.Length1 ==> Y[i, t] == old(Y[i, t]) + Outer(s.x, s.y, i, t)
    {
      hide Outer;
      for i := 0 to |skeleton|
        invariant forall r, j :: i <= r < X.Length0 && 0 <= j < X.Length1 ==> X[r, j] == old(X[r, j])
        invariant forall r, t :: i <= r < Y.Length0 && 0 <= t < Y.Length1 ==> Y[r, t] == old(Y[r, t])
        invariant forall r, j :: 0 <= r < i && 0 <= j < X.Length1 ==> X[r, j] == old(X[r, j]) + Outer(s.x, s.x, r, j)
        invariant forall r, t :: 0 <= r < i && 0 <= t < Y.Length1 ==> Y[r, t] == old(Y[r, t]) + Outer(s.x, s.y, r, t)
      {
        var xi := c[skeleton[i]];
        AddScaledRow(X, i, xi, skeleton, c, s.x);
        AddScaledRow(Y, i, xi, target, c, s.x);
      }
    }

    static lemma AppendSample(fs: seq<Sample>, s: Sample, i: int, j: int)
      ensures Gram(fs + [s], i, j) == Gram(fs, i, j) + Outer(s.x, s.x, i, j)
      ensures Cross(fs + [s], i, j) == Cross(fs, i, j) + Outer(s.x, s.y, i, j)
    {
      assert (fs + [s])[..|fs + [s]| - 1] == fs;
    }

    lemma SampleEntries(c: seq<real>)
      requires IndicesInRange() && |c| == padDim
      ensures IsSampleOf(SampleOf(c), c)
    {
    }

    method CalibrateFeed(coeffs: seq<real>)
      requires Valid() && |coeffs| == padDim
      modifies this, calibXtX, calibXtY
      ensures Valid() && calibrating == old(calibrating) && calibrated == old(calibrated) && W == old(W)
      ensures calibXtX == old(calibXtX) && calibXtY == old(calibXtY)
      ensures calibrating ==> samples == old(samples) + [SampleOf(coeffs)] && fed == old(fed) + [coeffs]
      ensures forall i :: 0 <= i < |skeletonIdx| ==> SampleOf(coeffs).x(i) == coeffs[skeletonIdx[i]]
      ensures forall t :: 0 <= t < |targetIdx| ==> SampleOf(coeffs).y(t) == coeffs[targetIdx[t]]
      ensures !calibrating ==> samples == old(samples) && fed == old(fed) && calibN == old(calibN)
    {
      SampleEntries(coeffs);
      hide Outer, Gram, Cross, Gather;
      if !calibrating {
        return;
      }
      ghost var s, before := SampleOf(coeffs), samples;
      var X, Y := calibXtX, calibXtY;
      AddOuterProducts(X, Y, skeletonIdx, targetIdx, coeffs, s);
      calibN := calibN + 1;
      samples, fed := samples + [s], fed + [coeffs];
      forall i, j | 0 <= i < X.Length0 && 0 <= j < X.Length1
        ensures X[i, j] == Gram(samples, i, j)
      {
        AppendSample(before, s, i, j);
      }
      forall i, t | 0 <= i < Y.Length0 && 0 <= t < Y.Length1
        ensures Y[i, t] == Cross(samples, i, t)
      {
        AppendSample(before, s, i, t);
      }
    }

    /** X^T X + ridge * I in place. */
    static method AddRidge(X: array2<real>, ridge: real)
      requires X.Length0 == X.Length1
      modifies X
      ensures forall i, j :: 0 <= i < X.Length0 && 0 <= j < X.Length1 ==>
                               X[i, j] == old(X[i, j]) + (if i == j then ridge else 0.0)
    {
      for i := 0 to X.Length0
        invariant forall r, j :: 0 <= r < X.Length0 && 0 <= j < X.Length1 ==>
                                   X[r, j] == old(X[r, j]) + (if r == j && r < i then ridge else 0.0)
      {
        X[i, i] := X[i, i] + ridge;
      }
    }

    /** Ridge, Cholesky solve, and the zero-fill fallback of a failed solve. */
    static method SolveWeights(X: array2<real>, Y: array2<real>, n: nat, sqrt: real -> real, ghost fs: seq<Sample>)
      requires IsSqrt(sqrt) && n == |fs| && n >= 1
      requires X != Y && X.Length0 == X.Length1 == Y.Length0
      requires Accumulated(X, Y, fs)
      modifies X, Y
      ensures forall t :: 0 <= t < Y.Length1 ==>
                IsUniqueMinimiser(fs, Y.Length0, 0.0001 * (|fs| as real), Column(Entries(Y), t), t)
    {
      hide IsUniqueMinimiser, Gram, Cross, Pivot;
      var ns, nt := Y.Length0, Y.Length1;
      var ridge := 0.0001 * (n as real);
      AddRidge(X, ridge);
      ghost var A, B := Entries(X), Entries(Y);
      assert Same(ns, ns, A, NormalMatrix(fs, ridge));
      assert Same(ns, nt, B, CrossMat(fs));
      var solved := SolveSpd(X, Y, sqrt);
      ghost var solution := Entries(Y);
      if solved != 0 {
        ZeroFill(Y);
      }
      RidgePivots(fs, ridge, A, sqrt, ns, ns);
      assert solved == 0;
      forall t | 0 <= t < nt
        ensures IsUniqueMinimiser(fs, ns, ridge, Column(solution, t), t)
      {
        SolutionIsMinimiser(fs, ns, nt, ridge, A, solution, B, t);
      }
    }

    static method ZeroFill(Y: array2<real>)
      modifies Y
      ensures forall i, j :: 0 <= i < Y.Length0 && 0 <= j < Y.Length1 ==> Y[i, j] == 0.0
    {
      forall i, j | 0 <= i < Y.Length0 && 0 <= j < Y.Length1 {
        Y[i, j] := 0.0;
      }
    }

    /** `narrow` is the conversion to the stored half-precision weight, left abstract. The weights
        before narrowing, `solution`, are the unique minimiser for every target; the Cholesky
        failure branch is there, as in the source, and is proved never to decide the result. */
    method CalibrateEnd(sqrt: real -> real, narrow: real -> real) returns (rc: int, ghost solution: Mat)
      requires Valid() && IsSqrt(sqrt)
      modifies this, calibXtX, calibXtY
      ensures Valid() && samples == old(samples) && fed == old(fed)
      ensures rc == 0 || rc == -1
      ensures rc == 0 <==> old(calibrating) && old(calibN) >= 1
      ensures rc == 0 ==> calibrated && !calibrating && calibN == 0 && W != null && fresh(W)
      ensures rc != 0 ==> calibrating == old(calibrating) && calibrated == old(calibrated) && W == old(W) && calibN == old(calibN)
      ensures rc == 0 ==> forall t :: 0 <= t < |targetIdx| ==>
                IsUniqueMinimiser(old(samples), |skeletonIdx|, 0.0001 * (|old(samples)| as real), Column(solution, t), t)
      ensures rc == 0 ==> forall s, t :: 0 <= s < |skeletonIdx| && 0 <= t < |targetIdx| ==>
                W[s, t] == narrow(solution(s, t))
    {
      hide IsUniqueMinimiser;
      solution := (i: int, j: int) => 0.0;
      if !calibrating || calibN < 1 {
        return -1, solution;
      }
      calibrating := false;
      SolveWeights(calibXtX, calibXtY, calibN, sqrt, samples);
      solution := Entries(calibXtY);
      W := NarrowAll(calibXtY, narrow);
      calibXtX, calibXtY := null, null;
      calibrated, calibN := true, 0;
      return 0, solution;
    }

    static method NarrowAll(Y: array2<real>, narrow: real -> real) returns (V: array2<real>)
      ensures fresh(V) && V.Length0 == Y.Length0 && V.Length1 == Y.Length1
      ensures forall s, t :: 0 <= s < V.Length0 && 0 <= t < V.Length1 ==> V[s, t] == narrow(Y[s, t])
    {
      V := new real[Y.Length0, Y.Length1]((i, j) => 0.0);
      for s := 0 to Y.Length0
        invariant forall r, t :: 0 <= r < s && 0 <= t < V.Length1 ==> V[r, t] == narrow(Y[r, t])
      {
        for t := 0 to Y.Length1
          invariant forall r, u :: 0 <= r < s && 0 <= u < V.Length1 ==> V[r, u] == narrow(Y[r, u])
          invariant forall u :: 0 <= u < t ==> V[s, u] == narrow(Y[s, u])
        {
          V[s, t] := narrow(Y[s, t]);
        }
      }
    }

    /** Weighted sum of the skeleton for each target; zero everywhere before calibration. */
    method Predict(skeleton: array<real>) returns (target: array<real>)
      requires Valid() && skeleton.Length == |skeletonIdx|
      ensures fresh(target) && target.Length == |targetIdx|
      ensures W == null ==> forall t :: 0 <= t < target.Length ==> target[t] == 0.0
      ensures W != null ==> forall t :: 0 <= t < target.Length ==>
                target[t] == WeightedSum(Entries(W), skeleton[..], t, skeleton.Length)
    {
      target := new real[|targetIdx|](i => 0.0);
      if W == null {
        return;
      }
      for s := 0 to skeleton.Length
        invariant forall t :: 0 <= t < target.Length ==> target[t] == WeightedSum(Entries(W), skeleton[..], t, s)
      {
        AddWeightRow(W, s, skeleton[s], target, skeleton[..]);
      }
    }

    static method AddWeightRow(V: array2<real>, s: nat, ks: real, target: array<real>, ghost skeleton: seq<real>)
      requires s < V.Length0 == |skeleton| && V.Length1 == target.Length && ks == skeleton[s]
      requires forall t :: 0 <= t < target.Length ==> target[t] == WeightedSum(Entries(V), skeleton, t, s)
      modifies target
      ensures forall t :: 0 <= t < target.Length ==> target[t] == WeightedSum(Entries(V), skeleton, t, s + 1)
    {
      hide Times;
      ghost var V0 := Entries(V);
      for t := 0 to target.Length
        invariant forall u :: 0 <= u < t ==> target[u] == WeightedSum(V0, skeleton, u, s + 1)
        invariant forall u :: t <= u < target.Length ==> target[u] == WeightedSum(V0, skeleton, u, s)
      {
        target[t] := target[t] + Times(V[s, t], ks);
      }
    }

    /** Sum over s < m of W(s, t) * skeleton[s]. */
    static ghost function WeightedSum(V: Mat, skeleton: seq<real>, t: int, m: nat): real
      requires m <= |skeleton|
    {
      if m == 0 then 0.0 else WeightedSum(V, skeleton, t, m - 1) + Times(V(m - 1, t), skeleton[m - 1])
    }

    /** The prediction is the product of the target's weight column with the skeleton vector. */
    static lemma {:induction false} PredictionIsDot(V: Mat, skeleton: seq<real>, t: int, m: nat)
      requires m <= |skeleton|
      ensures WeightedSum(V, skeleton, t, m)
              == Dot(m, Column(V, t), (s: int) => if 0 <= s < |skeleton| then skeleton[s] else 0.0)
    {
      if m > 0 {
        PredictionIsDot(V, skeleton, t, m - 1);
      }
    }
  }
}
