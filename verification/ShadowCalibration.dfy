/** Calibration of the compressed cache (core/src/shannon_prime.c, `sp_shadow_calibrate_begin`,
    `sp_shadow_calibrate_feed`, `sp_shadow_calibrate_end`): sums and cross products of transformed vectors,
    turned into variances and a covariance matrix, turned into a ranking of the coefficients. */
module ShadowCalibration {
  import opened Compression
  import opened Jacobi
  import opened JacobiTheory
  import opened Matrices
  import opened Permutations
  import opened RankSort
  import opened RealArith
  import opened RidgeTheory
  import opened ShadowCaches
  import opened SpectralScores
  import opened Sums
  import opened Vht2
  import opened Vht2Theory

  // ---------------------------------------------------------------- covariance

  ghost function Total(fs: seq<Sample>, i: int): real {
    if fs == [] then 0.0 else Total(fs[..|fs| - 1], i) + fs[|fs| - 1].x(i)
  }

  ghost function Mean(fs: seq<Sample>, i: int): real
    requires fs != []
  {
    Times(Total(fs, i), 1.0 / |fs| as real)
  }

  /** E[x_i x_j] - E[x_i] E[x_j]. */
  ghost function Covariance(fs: seq<Sample>): Mat
    requires fs != []
  {
    (i: int, j: int) => Times(Gram(fs, i, j), 1.0 / |fs| as real) - Times(Mean(fs, i), Mean(fs, j))
  }

  ghost function Variance(fs: seq<Sample>): int -> real
    requires fs != []
  {
    (i: int) => Covariance(fs)(i, i)
  }

  /** The samples with m subtracted. */
  ghost function Shifted(fs: seq<Sample>, m: int -> real): (r: seq<Sample>)
    ensures |r| == |fs|
  {
    if fs == [] then []
    else
      var x := fs[|fs| - 1].x;
      var d := (i: int) => x(i) - m(i);
      Shifted(fs[..|fs| - 1], m) + [Sample(d, d)]
  }

  /** The cross product of centred values from those of the values themselves. */
  ghost function Centred(g: real, ti: real, tj: real, mi: real, mj: real, k: real): real {
    g - mj * ti - mi * tj + k * (mi * mj)
  }

  lemma {:induction false} GramShifted(fs: seq<Sample>, m: int -> real, i: int, j: int)
    ensures Gram(Shifted(fs, m), i, j) == Centred(Gram(fs, i, j), Total(fs, i), Total(fs, j), m(i), m(j), |fs| as real)
  {
    if fs != [] {
      hide Centred, Shifted, Gram, Times;
      var init, x := fs[..|fs| - 1], fs[|fs| - 1].x;
      GramShifted(init, m, i, j);
      var all := Shifted(fs, m);
      ShiftedLast(fs, m);
      var d := all[|all| - 1].x;
      GramLast(fs, i, j);
      GramLast(all, i, j);
      CentredStep(Gram(init, i, j), Total(init, i), Total(init, j), m(i), m(j), |init| as real, x(i), x(j),
                  Times(x(i), x(j)), Times(d(i), d(j)));
      assert |fs| as real == |init| as real + 1.0;
    } else {
      assert Gram(Shifted(fs, m), i, j) == 0.0;
      NothingCentred(m(i), m(j));
    }
  }

  lemma ShiftedLast(fs: seq<Sample>, m: int -> real)
    requires fs != []
    ensures var all := Shifted(fs, m);
            && all[..|all| - 1] == Shifted(fs[..|fs| - 1], m)
            && forall i :: all[|all| - 1].x(i) == fs[|fs| - 1].x(i) - m(i)
  {
  }

  lemma GramLast(fs: seq<Sample>, i: int, j: int)
    requires fs != []
    ensures Gram(fs, i, j) == Gram(fs[..|fs| - 1], i, j) + Times(fs[|fs| - 1].x(i), fs[|fs| - 1].x(j))
  {
  }

  lemma NothingCentred(mi: real, mj: real)
    ensures Centred(0.0, 0.0, 0.0, mi, mj, 0.0) == 0.0
  {
  }

  lemma CentredStep(g: real, ti: real, tj: real, mi: real, mj: real, k: real, a: real, b: real, ab: real, dd: real)
    requires ab == Times(a, b) && dd == Times(a - mi, b - mj)
    ensures Centred(g, ti, tj, mi, mj, k) + dd == Centred(g + ab, ti + a, tj + b, mi, mj, k + 1.0)
  {
    assert dd == ab - a * mj - mi * b + mi * mj;
    assert (k + 1.0) * (mi * mj) == k * (mi * mj) + mi * mj;
  }

  /** The covariance is the mean cross product of the centred samples. */
  lemma CovarianceIsCentred(fs: seq<Sample>, i: int, j: int)
    requires fs != []
    ensures Covariance(fs)(i, j) == Times(Gram(Shifted(fs, (k: int) => Mean(fs, k)), i, j), 1.0 / |fs| as real)
  {
    hide Gram, Total, Shifted, Centred, Times;
    var m := (k: int) => Mean(fs, k);
    GramShifted(fs, m, i, j);
    MeanTerms(Gram(fs, i, j), Total(fs, i), Total(fs, j), |fs| as real, 1.0 / |fs| as real, m(i), m(j));
  }

  lemma MeanTerms(g: real, ti: real, tj: real, n: real, inv: real, mi: real, mj: real)
    requires n > 0.0 && inv == 1.0 / n && mi == Times(ti, inv) && mj == Times(tj, inv)
    ensures Times(g, inv) - Times(mi, mj) == Times(Centred(g, ti, tj, mi, mj, n), inv)
  {
    var p := mi * mj;
    assert n * inv == 1.0;
    assert (mj * ti) * inv == p;
    assert (mi * tj) * inv == p;
    assert (n * p) * inv == p * (n * inv) == p;
    var c := Centred(g, ti, tj, mi, mj, n);
    assert c == g - mj * ti - mi * tj + n * p;
    assert c * inv == g * inv - (mj * ti) * inv - (mi * tj) * inv + (n * p) * inv;
  }

  lemma CovariancePositive(fs: seq<Sample>, n: nat)
    requires fs != []
    ensures PositiveSemidefinite(n, Covariance(fs)) && Symmetric(Covariance(fs), n)
  {
    var m := (k: int) => Mean(fs, k);
    var centred, inv := Shifted(fs, m), 1.0 / |fs| as real;
    var C, G := Covariance(fs), NormalMatrix(centred, 0.0);
    forall i, j
      ensures C(i, j) == Times(inv, G(i, j))
    {
      CovarianceAt(fs, i, j);
    }
    hide Covariance, Gram, Shifted, Mean, Bilinear, Times;
    forall v: int -> real
      ensures Bilinear(n, C, v, v) >= 0.0
    {
      FormNonNegative(n, C, centred, inv, v);
    }
    forall i, j | 0 <= i < n && 0 <= j < n
      ensures C(i, j) == C(j, i)
    {
      GramSymmetric(centred, i, j);
      assert C(i, j) == Times(inv, G(i, j)) && C(j, i) == Times(inv, G(j, i));
    }
  }

  lemma CovarianceAt(fs: seq<Sample>, i: int, j: int)
    requires fs != []
    ensures Covariance(fs)(i, j)
            == Times(1.0 / |fs| as real, NormalMatrix(Shifted(fs, (k: int) => Mean(fs, k)), 0.0)(i, j))
  {
    hide Gram, Shifted, Covariance, Mean;
    CovarianceIsCentred(fs, i, j);
  }

  lemma FormNonNegative(n: nat, C: Mat, centred: seq<Sample>, inv: real, v: int -> real)
    requires inv > 0.0 && forall i, j :: C(i, j) == Times(inv, NormalMatrix(centred, 0.0)(i, j))
    ensures Bilinear(n, C, v, v) >= 0.0
  {
    hide Bilinear, Gram, Inner, Dot;
    var G := NormalMatrix(centred, 0.0);
    ScaledForm(n, C, G, inv, v);
    BilinearGram(centred, n, 0.0, v, v);
    InnerNonNeg(centred, n, v);
    ScaleMono(inv, 0.0, Bilinear(n, G, v, v));
  }

  lemma ScaledForm(n: nat, C: Mat, G: Mat, inv: real, v: int -> real)
    requires forall i, j :: C(i, j) == Times(inv, G(i, j))
    ensures Bilinear(n, C, v, v) == inv * Bilinear(n, G, v, v)
  {
    hide Dot;
    var zero := (i: int) => 0.0;
    forall i | 0 <= i < n
      ensures Apply(n, C, v)(i) == zero(i) + inv * Apply(n, G, v)(i)
    {
      DotLinear(n, v, inv, zero, Row(G, i), Row(C, i));
      DotZero(n, v, zero);
    }
    DotLinear(n, v, inv, zero, Apply(n, G, v), Apply(n, C, v));
    DotZero(n, v, zero);
  }

  /** Variances are not negative: the clamp at zero never acts. */
  lemma VarianceNonNegative(fs: seq<Sample>, i: int)
    requires fs != []
    ensures Variance(fs)(i) >= 0.0
  {
    var m := (k: int) => Mean(fs, k);
    hide Gram, Shifted, Mean;
    CovarianceIsCentred(fs, i, i);
    GramDiagonal(Shifted(fs, m), i);
    ScaleMono(1.0 / |fs| as real, 0.0, Gram(Shifted(fs, m), i, i));
  }

  lemma {:induction false} GramDiagonal(fs: seq<Sample>, i: int)
    ensures Gram(fs, i, i) >= 0.0
  {
    if fs != [] {
      GramDiagonal(fs[..|fs| - 1], i);
      SquareSign(fs[|fs| - 1].x(i), fs[|fs| - 1].x(i) * fs[|fs| - 1].x(i));
    }
  }

  // ---------------------------------------------------------------- what the covariance means

  /** Entry i of every sample. */
  ghost function Coordinate(fs: seq<Sample>, i: int): int -> real {
    (k: int) => if 0 <= k < |fs| then fs[k].x(i) else 0.0
  }

  lemma {:induction false} TotalIsSum(fs: seq<Sample>, i: int)
    ensures Total(fs, i) == Sum(0, |fs|, Coordinate(fs, i))
  {
    if fs != [] {
      TotalIsSum(fs[..|fs| - 1], i);
      SumCong(0, |fs| - 1, Coordinate(fs, i), Coordinate(fs[..|fs| - 1], i));
    }
  }

  lemma {:induction false} GramIsSum(fs: seq<Sample>, i: int, j: int, f: int -> real)
    requires forall k :: 0 <= k < |fs| ==> f(k) == Times(fs[k].x(i), fs[k].x(j))
    ensures Gram(fs, i, j) == Sum(0, |fs|, f)
  {
    if fs != [] {
      GramIsSum(fs[..|fs| - 1], i, j, f);
    }
  }

  lemma {:induction false} ShiftedAt(fs: seq<Sample>, m: int -> real, k: nat)
    requires k < |fs|
    ensures forall i :: Shifted(fs, m)[k].x(i) == fs[k].x(i) - m(i)
  {
    if k < |fs| - 1 {
      ShiftedAt(fs[..|fs| - 1], m, k);
    }
  }

  /** The covariance of two coefficients is the mean product of their deviations from their means. */
  lemma CovarianceMeaning(fs: seq<Sample>, i: int, j: int, mi: real, mj: real, f: int -> real)
    requires fs != []
    requires |fs| as real * mi == Sum(0, |fs|, Coordinate(fs, i)) && |fs| as real * mj == Sum(0, |fs|, Coordinate(fs, j))
    requires forall k :: 0 <= k < |fs| ==> f(k) == (fs[k].x(i) - mi) * (fs[k].x(j) - mj)
    ensures |fs| as real * Covariance(fs)(i, j) == Sum(0, |fs|, f)
    ensures i == j ==> |fs| as real * Variance(fs)(i) == Sum(0, |fs|, f)
  {
    hide Gram, Total, Shifted, Sum, Covariance;
    var n, m := |fs| as real, (k: int) => Mean(fs, k);
    TotalIsSum(fs, i);
    TotalIsSum(fs, j);
    MeanFrom(n, mi, Total(fs, i));
    MeanFrom(n, mj, Total(fs, j));
    assert m(i) == mi && m(j) == mj;
    var centred := Shifted(fs, m);
    forall k | 0 <= k < |centred|
      ensures f(k) == Times(centred[k].x(i), centred[k].x(j))
    {
      ShiftedAt(fs, m, k);
    }
    GramIsSum(centred, i, j, f);
    CovarianceIsCentred(fs, i, j);
    TimesInverse(n, Sum(0, |fs|, f));
  }

  lemma MeanFrom(n: real, m: real, total: real)
    requires n > 0.0 && n * m == total
    ensures Times(total, 1.0 / n) == m
  {
    var inv := 1.0 / n;
    assert n * inv == 1.0;
    assert (n * m) * inv == m * (n * inv);
  }

  lemma TimesInverse(n: real, g: real)
    requires n > 0.0
    ensures n * Times(g, 1.0 / n) == g
  {
    var inv := 1.0 / n;
    assert n * inv == 1.0;
    assert n * (g * inv) == g * (n * inv);
  }

  // ---------------------------------------------------------------- the accumulators

  class Calibration {
    const headDim: nat
    const kernels: Kernels
    const root: real
    const useSvdEntropy: bool
    const vht2Scratch: array<real>
    var calibrating: bool
    var calibN: nat
    var calibSum: array<real>
    var calibSum2: array<real>
    var calibCov: array2<real>
    /** The transformed vectors fed since calibration began. */
    ghost var fed: seq<Sample>

    ghost predicate Valid()
      reads this, calibSum, calibSum2, calibCov
    {
      && headDim > 0 && ValidKernels(kernels, root) && vht2Scratch.Length == headDim
      && (calibrating ==>
            && calibN == |fed| && calibSum.Length == calibSum2.Length == headDim && calibSum != calibSum2
            && vht2Scratch != calibSum && vht2Scratch != calibSum2
            && calibCov.Length0 == calibCov.Length1 == headDim
            && (forall i :: 0 <= i < headDim ==> calibSum[i] == Total(fed, i) && calibSum2[i] == Gram(fed, i, i))
            && (useSvdEntropy ==> forall i, j :: 0 <= i < headDim && 0 <= j < headDim ==> calibCov[i, j] == Gram(fed, i, j)))
    }

    constructor (headDim: nat, kernels: Kernels, root: real, useSvdEntropy: bool)
      requires headDim > 0 && ValidKernels(kernels, root)
      ensures Valid() && !calibrating && this.headDim == headDim && this.kernels == kernels && this.useSvdEntropy == useSvdEntropy
      ensures fresh(calibSum) && fresh(calibSum2) && fresh(calibCov) && fresh(vht2Scratch)
    {
      this.headDim, this.kernels, this.root, this.useSvdEntropy := headDim, kernels, root, useSvdEntropy;
      vht2Scratch := new real[headDim];
      calibrating, calibN, fed := false, 0, [];
      calibSum, calibSum2, calibCov := new real[0], new real[0], new real[0, 0];
    }

    method Begin() returns (rc: int)
      requires Valid()
      modifies this
      ensures Valid() && calibrating
      ensures rc == (if old(calibrating) then -1 else 0)
      ensures fed == if old(calibrating) then old(fed) else []
      ensures rc == -1 ==> calibSum == old(calibSum) && calibSum2 == old(calibSum2) && calibCov == old(calibCov)
      ensures rc == 0 ==> fresh(calibSum) && fresh(calibSum2) && fresh(calibCov)
    {
      hide ValidKernels, Gram, Total;
      if calibrating {
        return -1;
      }
      NothingFed();
      calibSum := new real[headDim](_ => 0.0);
      calibSum2 := new real[headDim](_ => 0.0);
      calibCov := new real[headDim, headDim]((_, _) => 0.0);
      calibN, fed, calibrating := 0, [], true;
      return 0;
    }

    static lemma NothingFed()
      ensures forall i :: Total([], i) == 0.0
      ensures forall i, j :: Gram([], i, j) == 0.0
    {
    }

    /** The sample a vector contributes: its transform. */
    ghost function SampleOf(vec: seq<real>): Sample
      requires |vec| == headDim > 0
    {
      var x := Transform(kernels, headDim, AsVector(vec));
      Sample(x, x)
    }

    method Feed(vec: seq<real>)
      requires Valid() && |vec| == headDim
      modifies this`calibN, this`fed, vht2Scratch, calibSum, calibSum2, calibCov
      ensures Valid()
      ensures fed == if calibrating then old(fed) + [SampleOf(vec)] else old(fed)
      ensures calibrating ==>
                forall i :: 0 <= i < headDim ==> fed[|old(fed)|].x(i) == Stored(kernels, Natural(headDim), vec)[i]
    {
      hide Transform, ValidKernels, Gram, Total;
      if !calibrating {
        return;
      }
      ghost var sample := SampleOf(vec);
      LoadSample(vec);
      AddSums(vht2Scratch, calibSum, calibSum2, fed, sample);
      if useSvdEntropy {
        AddCross(vht2Scratch, calibCov, fed, sample);
      }
      fed := fed + [sample];
      calibN := calibN + 1;
    }

    /** The transform of a vector in the scratch. */
    method LoadSample(vec: seq<real>)
      requires vht2Scratch.Length == |vec| == headDim > 0 && ValidKernels(kernels, root)
      modifies vht2Scratch
      ensures forall i :: 0 <= i < headDim ==> vht2Scratch[i] == SampleOf(vec).x(i)
    {
      hide Transform, ValidKernels;
      forall i | 0 <= i < headDim {
        vht2Scratch[i] := vec[i];
      }
      ghost var loaded := Values(vht2Scratch);
      Forward(vht2Scratch, kernels, root);
      TransformLocal(kernels, headDim, loaded, AsVector(vec));
    }

    /** Finish: scores for every coefficient, the variances, or spectral scores where those can be had. */
    method End(sqrt: real -> real) returns (rc: int, scores: array<real>, svd: bool, ghost run: JacobiRun, ghost A: Mat)
      requires Valid() && IsSqrt(sqrt)
      modifies this`calibrating, this`calibN, calibCov
      ensures rc == (if old(calibrating) && |old(fed)| >= 1 then 0 else -1)
      ensures rc == -1 ==> calibrating == old(calibrating) && calibN == old(calibN)
      ensures rc == 0 ==> !calibrating && calibN == 0 && fresh(scores) && scores.Length == headDim
      ensures rc == 0 && !svd ==> forall i :: 0 <= i < headDim ==> scores[i] == Variance(old(fed))(i)
      ensures rc == 0 && svd ==>
                && run.IsRun(headDim, Covariance(old(fed)), A, 50, sqrt)
                && (Mass(Covariance(old(fed)), headDim) <= 2.0 ==> run.Exact())
                && (run.Exact() ==> ScoresDescribe(headDim, Covariance(old(fed)), A, Values(scores)))
      ensures svd ==> useSvdEntropy
      ensures rc == 0 && useSvdEntropy && Trace(Covariance(old(fed)), headDim) >= 0.000000000000000000000000000001 ==> svd
      ensures rc == 0 && svd && run.Exact() ==> Trace(Covariance(old(fed)), headDim) >= 0.000000000000000000000000000001
    {
      hide ValidKernels, Gram, Total, JacobiRun.IsRun, ScoresDescribe, PositiveSemidefinite, Mass, Trace, JacobiRun.Exact;
      rc, svd, run, A := -1, false, JacobiRun([], []), (i: int, j: int) => 0.0;
      scores := new real[headDim];
      if !calibrating || calibN < 1 {
        return;
      }
      calibrating := false;
      var n, invN := headDim, 1.0 / calibN as real;
      VarianceScores(calibSum, calibSum2, invN, scores, fed);
      rc, calibN := 0, 0;
      if useSvdEntropy {
        ghost var C := Covariance(fed);
        CentreCovariance(calibSum, calibCov, invN, fed);
        CovariancePositive(fed, n);
        ghost var entries := Entries(calibCov);
        SameInput(n, entries, C);
        var spectral := new real[n];
        var code;
        code, run := SvdEntropyScores(calibCov, spectral, sqrt);
        A := Entries(calibCov);
        SameRun(n, entries, C, A, run, sqrt);
        if code == 0 && run.Exact() {
          SameDescription(n, entries, C, A, Values(spectral));
        }
        if code == 0 {
          svd := true;
          scores := spectral;
        }
      }
    }
  }

  /** The solver's input counts only on [0, n). */
  lemma SameInput(n: nat, M: Mat, C: Mat)
    requires Same(n, n, M, C) && PositiveSemidefinite(n, C) && Symmetric(C, n)
    ensures PositiveSemidefinite(n, M) && Symmetric(M, n) && Mass(M, n) == Mass(C, n) && Trace(M, n) == Trace(C, n)
  {
    hide Mass, Trace, Bilinear;
    MassCong(n, M, C);
    TraceCong(n, M, C);
    forall v: int -> real
      ensures Bilinear(n, M, v, v) >= 0.0
    {
      BilinearCong(n, M, C, v, v);
    }
  }

  lemma SameRun(n: nat, M: Mat, C: Mat, A: Mat, run: JacobiRun, sqrt: real -> real)
    requires Same(n, n, M, C) && run.IsRun(n, M, A, 50, sqrt)
    ensures run.IsRun(n, C, A, 50, sqrt)
  {
    hide JacobiRun.IsSweep, JacobiRun.Converged;
  }

  lemma SameDescription(n: nat, M: Mat, C: Mat, A: Mat, scores: int -> real)
    requires Same(n, n, M, C) && Trace(M, n) == Trace(C, n) && ScoresDescribe(n, M, A, scores)
    ensures ScoresDescribe(n, C, A, scores)
  {
    hide Trace, Off;
  }

  /** sum += v, sum2 += v^2. */
  method AddSums(v: array<real>, sum: array<real>, sum2: array<real>, ghost fs: seq<Sample>, ghost s: Sample)
    requires v.Length == sum.Length == sum2.Length && v != sum && v != sum2 && sum != sum2
    requires forall i :: 0 <= i < v.Length ==> v[i] == s.x(i)
    requires forall i :: 0 <= i < v.Length ==> sum[i] == Total(fs, i) && sum2[i] == Gram(fs, i, i)
    modifies sum, sum2
    ensures forall i :: 0 <= i < v.Length ==> sum[i] == Total(fs + [s], i) && sum2[i] == Gram(fs + [s], i, i)
  {
    hide Gram, Total;
    for i := 0 to v.Length
      invariant forall k :: 0 <= k < i ==> sum[k] == Total(fs + [s], k) && sum2[k] == Gram(fs + [s], k, k)
      invariant forall k :: i <= k < v.Length ==> sum[k] == Total(fs, k) && sum2[k] == Gram(fs, k, k)
    {
      SampleAdded(fs, s, i, i);
      sum[i] := sum[i] + v[i];
      sum2[i] := sum2[i] + v[i] * v[i];
    }
  }

  lemma SampleAdded(fs: seq<Sample>, s: Sample, i: int, j: int)
    ensures Total(fs + [s], i) == Total(fs, i) + s.x(i)
    ensures Gram(fs + [s], i, j) == Gram(fs, i, j) + s.x(i) * s.x(j)
  {
    assert (fs + [s])[..|fs|] == fs;
  }

  /** C += v v^T, entry by entry from the upper triangle. */
  method AddCross(v: array<real>, C: array2<real>, ghost fs: seq<Sample>, ghost s: Sample)
    requires C.Length0 == C.Length1 == v.Length
    requires forall i :: 0 <= i < v.Length ==> v[i] == s.x(i)
    requires forall i, j :: 0 <= i < v.Length && 0 <= j < v.Length ==> C[i, j] == Gram(fs, i, j)
    modifies C
    ensures forall i, j :: 0 <= i < v.Length && 0 <= j < v.Length ==> C[i, j] == Gram(fs + [s], i, j)
  {
    hide Gram;
    var n := v.Length;
    for i := 0 to n
      invariant forall r, c :: 0 <= r < n && 0 <= c < n ==>
        C[r, c] == if r < i || c < i then Gram(fs + [s], r, c) else Gram(fs, r, c)
    {
      for j := i to n
        invariant forall r, c :: 0 <= r < n && 0 <= c < n ==>
          C[r, c] == if r < i || c < i || (r == i && c < j) || (c == i && r < j) then Gram(fs + [s], r, c) else Gram(fs, r, c)
      {
        SampleAdded(fs, s, i, j);
        SampleAdded(fs, s, j, i);
        var p := v[i] * v[j];
        ProductCommutes(s.x(i), s.x(j));
        C[i, j] := C[i, j] + p;
        if j != i {
          C[j, i] := C[j, i] + p;
        }
      }
    }
  }

  lemma ProductCommutes(a: real, b: real)
    ensures a * b == b * a
  {
  }

  lemma VarianceValue(fs: seq<Sample>, i: int, mean: real, invN: real)
    requires fs != [] && invN == 1.0 / |fs| as real && mean == Times(Total(fs, i), invN)
    ensures Variance(fs)(i) == Times(Gram(fs, i, i), invN) - Times(mean, mean)
  {
    hide Gram, Total, Times;
    assert Mean(fs, i) == mean;
    assert Covariance(fs)(i, i) == Times(Gram(fs, i, i), invN) - Times(Mean(fs, i), Mean(fs, i));
  }

  method VarianceScores(sum: array<real>, sum2: array<real>, invN: real, scores: array<real>, ghost fs: seq<Sample>)
    requires fs != [] && sum.Length == sum2.Length == scores.Length && scores != sum && scores != sum2
    requires invN == 1.0 / |fs| as real
    requires forall i :: 0 <= i < sum.Length ==> sum[i] == Total(fs, i) && sum2[i] == Gram(fs, i, i)
    modifies scores
    ensures forall i :: 0 <= i < scores.Length ==> scores[i] == Variance(fs)(i)
  {
    hide Gram, Total, Times;
    for i := 0 to scores.Length
      invariant forall k :: 0 <= k < i ==> scores[k] == Variance(fs)(k)
    {
      var mean := Times(sum[i], invN);
      var variance := Times(sum2[i], invN) - Times(mean, mean);
      VarianceNonNegative(fs, i);
      VarianceValue(fs, i, mean, invN);
      scores[i] := if variance > 0.0 then variance else 0.0;
    }
  }

  /** C = C / n - mean mean^T. */
  method CentreCovariance(sum: array<real>, C: array2<real>, invN: real, ghost fs: seq<Sample>)
    requires fs != [] && C.Length0 == C.Length1 == sum.Length && invN == 1.0 / |fs| as real
    requires forall i :: 0 <= i < sum.Length ==> sum[i] == Total(fs, i)
    requires forall i, j :: 0 <= i < sum.Length && 0 <= j < sum.Length ==> C[i, j] == Gram(fs, i, j)
    modifies C
    ensures forall i, j :: 0 <= i < sum.Length && 0 <= j < sum.Length ==> C[i, j] == Covariance(fs)(i, j)
  {
    hide Gram, Total, Times;
    var n := sum.Length;
    for i := 0 to n
      invariant forall r, c :: 0 <= r < n && 0 <= c < n ==> C[r, c] == if r < i then Covariance(fs)(r, c) else Gram(fs, r, c)
    {
      var mi := Times(sum[i], invN);
      for j := 0 to n
        invariant forall r, c :: 0 <= r < n && 0 <= c < n ==>
          C[r, c] == if r < i || (r == i && c < j) then Covariance(fs)(r, c) else Gram(fs, r, c)
      {
        var mj := Times(sum[j], invN);
        C[i, j] := Times(C[i, j], invN) - Times(mi, mj);
      }
    }
  }

  /** Ranked by spectral scores, no later coefficient has a variance more than the square root of eight
      times the off-diagonal residue above an earlier one's. */
  ghost predicate NearlyByVariance(fs: seq<Sample>, order: seq<int>, residue: real)
    requires fs != []
  {
    forall i, k :: 0 <= i < k < |order| ==> RankedWithin(Variance(fs)(order[i]), Variance(fs)(order[k]), residue)
  }

  ghost predicate RankedWithin(first: real, second: real, residue: real) {
    var g := second - first;
    g > 0.0 ==> g * g <= 8.0 * residue
  }

  lemma SpectralRankFollowsVariance(fs: seq<Sample>, n: nat, A: Mat, scores: int -> real, order: seq<int>)
    requires fs != [] && ScoresDescribe(n, Covariance(fs), A, scores) && Trace(Covariance(fs), n) > 0.0
    requires |order| == n && forall i :: 0 <= i < n ==> 0 <= order[i] < n
    requires Ranked(order, scores)
    ensures NearlyByVariance(fs, order, Off(A, n))
  {
    hide ScoresDescribe, Off, Trace, Covariance;
    forall i, k | 0 <= i < k < n
      ensures RankedWithin(Variance(fs)(order[i]), Variance(fs)(order[k]), Off(A, n))
    {
      assert Before(scores, order[i], order[k]);
      ScoresRankByVariance(n, Covariance(fs), A, scores, order[i], order[k]);
    }
  }

  /** Where the solver ends on a diagonal matrix, spectral scores rank as variances do: the two ways of
      calibrating lead to the same order. */
  lemma SpectralRankIsVarianceRank(fs: seq<Sample>, n: nat, A: Mat, scores: int -> real, order: seq<int>)
    requires fs != [] && ScoresDescribe(n, Covariance(fs), A, scores) && Off(A, n) == 0.0 && Trace(Covariance(fs), n) > 0.0
    requires |order| == n && forall i :: 0 <= i < n ==> 0 <= order[i] < n
    ensures Ranked(order, scores) <==> Ranked(order, Variance(fs))
  {
    hide ScoresDescribe, Off, Trace, Covariance;
    forall i, k | 0 <= i < n && 0 <= k < n
      ensures scores(i) < scores(k) <==> Variance(fs)(i) < Variance(fs)(k)
    {
      ScoresRankByVariance(n, Covariance(fs), A, scores, i, k);
    }
    forall i, k | 0 <= i < k < n
      ensures Before(scores, order[i], order[k]) <==> Before(Variance(fs), order[i], order[k])
    {
    }
  }

  /** Finish a calibration and store keys in the order it found. */
  method CalibrateCache(cache: ShadowCache, calibration: Calibration, sqrt: real -> real)
      returns (rc: int, scores: array<real>, svd: bool, ghost run: JacobiRun, ghost A: Mat)
    requires cache.Valid() && calibration.Valid() && IsSqrt(sqrt) && cache.headDim == calibration.headDim
    modifies cache`useVarReorder, cache`varOrder, cache`kLog
    modifies calibration`calibrating, calibration`calibN, calibration.calibCov
    ensures cache.Valid()
    ensures rc == -1 ==> cache.kLog == old(cache.kLog) && cache.vLog == old(cache.vLog) && cache.Order() == old(cache.Order())
    ensures rc == 0 ==> cache.kLog == map[] && cache.vLog == old(cache.vLog) && old(calibration.fed) != []
    ensures rc == 0 ==> |cache.Order()| == cache.headDim
    ensures rc == 0 && !svd ==> Ranked(cache.Order(), Variance(old(calibration.fed)))
    ensures rc == 0 && svd ==>
              && run.IsRun(cache.headDim, Covariance(old(calibration.fed)), A, 50, sqrt)
              && (|run.sweeps| < 50 ==> Off(A, cache.headDim) < 0.00000000000000000001)
              && (Mass(Covariance(old(calibration.fed)), cache.headDim) <= 2.0 ==> run.Exact())
    ensures rc == 0 && svd && run.Exact() ==> NearlyByVariance(old(calibration.fed), cache.Order(), Off(A, cache.headDim))
    ensures rc == 0 && svd && run.Exact() && Off(A, cache.headDim) == 0.0 ==>
              Ranked(cache.Order(), Variance(old(calibration.fed)))
  {
    hide ShadowCache.Valid, JacobiRun.IsRun, JacobiRun.Exact, ScoresDescribe, Off, Trace, Mass, Ranked, Covariance, Variance, NearlyByVariance;
    rc, scores, svd, run, A := calibration.End(sqrt);
    if rc == 0 && svd {
      EndOfRun(cache.headDim, run, Covariance(calibration.fed), A, 50, sqrt);
    }
    if rc == 0 {
      var list := scores[..];
      var ranking := (i: int) => if 0 <= i < |list| then list[i] else 0.0;
      cache.CalibrateEnd(ranking);
      OrderInRange(cache);
      ghost var fed := calibration.fed;
      if !svd {
        SameRanking(cache.Order(), cache.headDim, ranking, Variance(fed));
      } else if run.Exact() {
        SameRanking(cache.Order(), cache.headDim, ranking, Values(scores));
        SpectralRankFollowsVariance(fed, cache.headDim, A, Values(scores), cache.Order());
        if Off(A, cache.headDim) == 0.0 {
          SpectralRankIsVarianceRank(fed, cache.headDim, A, Values(scores), cache.Order());
        }
      }
    }
  }

  lemma OrderInRange(cache: ShadowCache)
    requires cache.Valid()
    ensures |cache.Order()| == cache.headDim && forall i :: 0 <= i < cache.headDim ==> 0 <= cache.Order()[i] < cache.headDim
  {
    cache.OrderIsPermutation();
  }

  /** Rankings that agree on [0, n) rank alike. */
  lemma SameRanking(order: seq<int>, n: nat, a: int -> real, b: int -> real)
    requires |order| == n && (forall i :: 0 <= i < n ==> 0 <= order[i] < n)
    requires forall i :: 0 <= i < n ==> a(i) == b(i)
    ensures Ranked(order, a) <==> Ranked(order, b)
  {
    forall i, k | 0 <= i < k < n
      ensures Before(a, order[i], order[k]) <==> Before(b, order[i], order[k])
    {
    }
  }
}
