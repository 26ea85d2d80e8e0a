/** The mathematics of the ridge regression behind the hierarchical predictor: the normal
    matrix is positive definite with margin lambda (here `ridge`), so the Cholesky pivots never fail, and
    the solution of the normal equations is the unique minimiser of the ridge objective. */
module RidgeTheory {
  import opened RealArith
  import opened Matrices
  import opened SpdSolver

  /** One calibration vector: its skeleton part x and its target part y. */
  datatype Sample = Sample(x: int -> real, y: int -> real)

  /** Entry (i, j) of X^T X. */
  ghost function Gram(fs: seq<Sample>, i: int, j: int): real {
    if |fs| == 0 then 0.0
    else Gram(fs[..|fs| - 1], i, j) + fs[|fs| - 1].x(i) * fs[|fs| - 1].x(j)
  }

  /** Entry (i, t) of X^T Y. */
  ghost function Cross(fs: seq<Sample>, i: int, t: int): real {
    if |fs| == 0 then 0.0
    else Cross(fs[..|fs| - 1], i, t) + fs[|fs| - 1].x(i) * fs[|fs| - 1].y(t)
  }

  /** X^T X + ridge * I. */
  ghost function NormalMatrix(fs: seq<Sample>, ridge: real): Mat {
    (i: int, j: int) => Gram(fs, i, j) + (if i == j then ridge else 0.0)
  }

  ghost function CrossMat(fs: seq<Sample>): Mat {
    (i: int, t: int) => Cross(fs, i, t)
  }

  /** Sum over the samples of (x . u) * (x . w). */
  ghost function Inner(fs: seq<Sample>, n: nat, u: int -> real, w: int -> real): real {
    if |fs| == 0 then 0.0
    else Inner(fs[..|fs| - 1], n, u, w) + Dot(n, u, fs[|fs| - 1].x) * Dot(n, w, fs[|fs| - 1].x)
  }

  /** Sum over the samples of (x . u) * y(t). */
  ghost function InnerTarget(fs: seq<Sample>, n: nat, u: int -> real, t: int): real {
    if |fs| == 0 then 0.0
    else InnerTarget(fs[..|fs| - 1], n, u, t) + Dot(n, u, fs[|fs| - 1].x) * fs[|fs| - 1].y(t)
  }

  /** Squared prediction error of weights w for target t over all samples. */
  ghost function Loss(fs: seq<Sample>, n: nat, w: int -> real, t: int): real {
    if |fs| == 0 then 0.0
    else
      var e := fs[|fs| - 1].y(t) - Dot(n, w, fs[|fs| - 1].x);
      Loss(fs[..|fs| - 1], n, w, t) + e * e
  }

  /** What ridge regression minimises. */
  ghost function Objective(fs: seq<Sample>, n: nat, ridge: real, w: int -> real, t: int): real {
    Loss(fs, n, w, t) + ridge * Dot(n, w, w)
  }

  // ------------------------------------------------------------- the quadratic form

  lemma {:induction false} BilinearGram(fs: seq<Sample>, n: nat, ridge: real, u: int -> real, w: int -> real)
    ensures Bilinear(n, NormalMatrix(fs, ridge), u, w) == Inner(fs, n, u, w) + ridge * Dot(n, u, w)
  {
    hide Dot;
    var M := NormalMatrix(fs, ridge);
    if |fs| == 0 {
      forall i | 0 <= i < n
        ensures Apply(n, M, w)(i) == 0.0 + ridge * w(i)
      {
        DotSingle(n, i, w, Row(M, i));
      }
      var zero := (i: int) => 0.0;
      DotZero(n, u, zero);
      DotLinear(n, u, ridge, zero, w, Apply(n, M, w));
    } else {
      var fs', x := fs[..|fs| - 1], fs[|fs| - 1].x;
      var M' := NormalMatrix(fs', ridge);
      BilinearGram(fs', n, ridge, u, w);
      forall i | 0 <= i < n
        ensures Apply(n, M, w)(i) == Apply(n, M', w)(i) + Dot(n, w, x) * x(i)
      {
        GramStep(fs, n, ridge, w, i);
      }
      var a, b := Dot(n, u, x), Dot(n, w, x);
      DotLinear(n, u, b, Apply(n, M', w), x, Apply(n, M, w));
      assert b * a == a * b;
      assert Inner(fs, n, u, w) == Inner(fs', n, u, w) + a * b;
      assert Bilinear(n, M, u, w) == Bilinear(n, M', u, w) + b * a;
    }
  }

  /** One more sample adds a rank-one matrix. */
  lemma GramStep(fs: seq<Sample>, n: nat, ridge: real, w: int -> real, i: nat)
    requires |fs| > 0 && i < n
    ensures var x := fs[|fs| - 1].x;
            Apply(n, NormalMatrix(fs, ridge), w)(i)
            == Apply(n, NormalMatrix(fs[..|fs| - 1], ridge), w)(i) + Dot(n, w, x) * x(i)
  {
    hide Dot;
    var fs', x := fs[..|fs| - 1], fs[|fs| - 1].x;
    var before, after := Row(NormalMatrix(fs', ridge), i), Row(NormalMatrix(fs, ridge), i);
    forall j | 0 <= j < n
      ensures after(j) == before(j) + x(i) * x(j)
    {
      assert Gram(fs, i, j) == Gram(fs', i, j) + x(i) * x(j);
    }
    DotLinear(n, w, x(i), before, x, after);
  }

  lemma {:induction false} DotCross(fs: seq<Sample>, n: nat, u: int -> real, t: int)
    ensures Dot(n, u, Column(CrossMat(fs), t)) == InnerTarget(fs, n, u, t)
  {
    hide Dot;
    if |fs| == 0 {
      DotZero(n, u, Column(CrossMat(fs), t));
    } else {
      var fs', s := fs[..|fs| - 1], fs[|fs| - 1];
      DotCross(fs', n, u, t);
      DotLinear(n, u, s.y(t), Column(CrossMat(fs'), t), s.x, Column(CrossMat(fs), t));
    }
  }

  lemma {:induction false} InnerNonNeg(fs: seq<Sample>, n: nat, u: int -> real)
    ensures Inner(fs, n, u, u) >= 0.0
  {
    if |fs| > 0 {
      InnerNonNeg(fs[..|fs| - 1], n, u);
    }
  }

  /** v^T (X^T X + ridge I) v >= ridge * v(j)^2: positive definiteness with margin. */
  lemma NormalMatrixPositive(fs: seq<Sample>, n: nat, ridge: real, v: int -> real, j: nat)
    requires ridge > 0.0 && j < n
    ensures Bilinear(n, NormalMatrix(fs, ridge), v, v) >= ridge * (v(j) * v(j))
  {
    hide Dot;
    BilinearGram(fs, n, ridge, v, v);
    InnerNonNeg(fs, n, v);
    DotSquareNonNeg(n, v);
    var a, b := v(j) * v(j), Dot(n, v, v);
    assert a <= b;
    ScaleMono(ridge, a, b);
  }

  // ------------------------------------------------------------- pivots

  ghost function FactorColumn(A: Mat, sqrt: real -> real, k: int): int -> real {
    (l: int) => Factor(A, sqrt, l, k)
  }

  /** l -> sum over k < m of L(i, k) * L(l, k). */
  ghost function FactorDotRow(A: Mat, sqrt: real -> real, i: int, m: nat): int -> real {
    (l: int) => FactorDot(A, sqrt, i, l, m)
  }

  /** Right-hand side of the back substitution below: minus row j of L. */
  ghost function MinusFactorRow(A: Mat, sqrt: real -> real, j: int): Mat {
    (r: int, t: int) => -Factor(A, sqrt, j, r)
  }

  /** The vector on which the quadratic form of A takes the value of pivot j: one at j, zero
      after j, and before j the back substitution that annihilates the first j columns of L. */
  ghost function PivotVector(A: Mat, sqrt: real -> real, j: nat): int -> real {
    (i: int) => if i == j then 1.0
                else if 0 <= i < j then Bwd(FactorMat(A, sqrt), MinusFactorRow(A, sqrt, j), j, i, 0)
                else 0.0
  }

  /** The pivot vector is orthogonal to each of the first j columns of L. */
  lemma PivotVectorAnnihilates(A: Mat, sqrt: real -> real, n: nat, j: nat, k: nat)
    requires IsSqrt(sqrt) && k < j < n && PivotsPositive(A, sqrt, j)
    ensures Dot(n, PivotVector(A, sqrt, j), FactorColumn(A, sqrt, k)) == 0.0
  {
    hide Dot;
    var L, Z, v := FactorMat(A, sqrt), MinusFactorRow(A, sqrt, j), PivotVector(A, sqrt, j);
    forall i | 0 <= i < j
      ensures L(i, i) != 0.0
    {
      FactorReproduces(A, sqrt, i, i);
    }
    assert LowerTriangular(L, j);
    BackSolves(L, Z, j, k, 0);
    var X := BwdMat(L, Z, j);
    ProductIsDot(j, Transpose(L), X, k, 0);
    DotCong(j, Row(Transpose(L), k), Column(X, 0), v);
    DotCong(j, v, Row(Transpose(L), k), FactorColumn(A, sqrt, k));
    DotCommutes(j, v, Row(Transpose(L), k));
    DotPrefix(n, j, v, FactorColumn(A, sqrt, k));
  }

  /** Sum over l of v(l) * (row i of L . row l of L) is zero, column by column. */
  lemma {:induction false} CombinationVanishes(A: Mat, sqrt: real -> real, n: nat, j: nat, i: nat, m: nat)
    requires IsSqrt(sqrt) && m <= j < n && PivotsPositive(A, sqrt, j)
    ensures Dot(n, PivotVector(A, sqrt, j), FactorDotRow(A, sqrt, i, m)) == 0.0
    decreases m
  {
    hide Dot;
    var v := PivotVector(A, sqrt, j);
    if m == 0 {
      DotZero(n, v, FactorDotRow(A, sqrt, i, 0));
    } else {
      CombinationVanishes(A, sqrt, n, j, i, m - 1);
      PivotVectorAnnihilates(A, sqrt, n, j, m - 1);
      DotLinear(n, v, Factor(A, sqrt, i, m - 1), FactorDotRow(A, sqrt, i, m - 1),
                FactorColumn(A, sqrt, m - 1), FactorDotRow(A, sqrt, i, m));
    }
  }

  /** Away from the corner (j, j), the leading block of A is the product of the first j columns. */
  lemma LeadingBlock(A: Mat, sqrt: real -> real, n: nat, j: nat, i: nat, l: nat)
    requires IsSqrt(sqrt) && i <= j < n && l <= j && PivotsPositive(A, sqrt, j) && Symmetric(A, n)
    ensures A(i, l) == FactorDot(A, sqrt, i, l, j) + (if i == j && l == j then Pivot(A, sqrt, j) else 0.0)
  {
    if !(i == j && l == j) {
      var lo, hi := if i <= l then i else l, if i <= l then l else i;
      FactorReproduces(A, sqrt, hi, lo);
      FactorDotExtend(A, sqrt, hi, lo, j);
      FactorDotSymmetric(A, sqrt, hi, lo, j);
    }
  }

  ghost function UnitAt(j: int): int -> real {
    (l: int) => if l == j then 1.0 else 0.0
  }

  /** A * v vanishes above row j and is the pivot in row j. */
  lemma PivotRow(A: Mat, sqrt: real -> real, n: nat, j: nat, i: nat)
    requires IsSqrt(sqrt) && i <= j < n && PivotsPositive(A, sqrt, j) && Symmetric(A, n)
    ensures Apply(n, A, PivotVector(A, sqrt, j))(i) == if i == j then Pivot(A, sqrt, j) else 0.0
  {
    hide Dot;
    var v := PivotVector(A, sqrt, j);
    var corner := if i == j then Pivot(A, sqrt, j) else 0.0;
    var whole := (l: int) => FactorDotRow(A, sqrt, i, j)(l) + corner * UnitAt(j)(l);
    CombinationVanishes(A, sqrt, n, j, i, j);
    DotLinear(n, v, corner, FactorDotRow(A, sqrt, i, j), UnitAt(j), whole);
    DotSingle(n, j, v, UnitAt(j));
    // beyond column j the vector is zero, up to it the two rows agree
    DotPrefix(n, j, v, whole);
    DotPrefix(n, j, v, Row(A, i));
    forall l | 0 <= l <= j
      ensures Row(A, i)(l) == whole(l)
    {
      LeadingBlock(A, sqrt, n, j, i, l);
    }
    DotCong(j, v, Row(A, i), whole);
  }

  /** The quadratic form at the pivot vector is the pivot. */
  lemma PivotIsQuadraticForm(A: Mat, sqrt: real -> real, n: nat, j: nat)
    requires IsSqrt(sqrt) && j < n && PivotsPositive(A, sqrt, j) && Symmetric(A, n)
    ensures Bilinear(n, A, PivotVector(A, sqrt, j), PivotVector(A, sqrt, j)) == Pivot(A, sqrt, j)
  {
    hide Dot;
    var v := PivotVector(A, sqrt, j);
    forall i | 0 <= i < n && i != j
      ensures v(i) == 0.0 || Apply(n, A, v)(i) == 0.0
    {
      if i < j {
        PivotRow(A, sqrt, n, j, i);
      }
    }
    PivotRow(A, sqrt, n, j, j);
    DotSingle(n, j, v, Apply(n, A, v));
  }

  lemma {:induction false} GramSymmetric(fs: seq<Sample>, i: int, j: int)
    ensures Gram(fs, i, j) == Gram(fs, j, i)
  {
    if |fs| > 0 {
      GramSymmetric(fs[..|fs| - 1], i, j);
    }
  }

  lemma NormalMatrixSymmetric(fs: seq<Sample>, ridge: real, n: nat)
    ensures Symmetric(NormalMatrix(fs, ridge), n)
  {
    forall r, c | 0 <= r < n && 0 <= c < n
      ensures Gram(fs, r, c) == Gram(fs, c, r)
    {
      GramSymmetric(fs, r, c);
    }
  }

  lemma BilinearCong(n: nat, A: Mat, M: Mat, u: int -> real, w: int -> real)
    requires Same(n, n, A, M)
    ensures Bilinear(n, A, u, w) == Bilinear(n, M, u, w)
  {
    hide Dot;
    forall i | 0 <= i < n
      ensures Apply(n, A, w)(i) == Apply(n, M, w)(i)
    {
      DotCong(n, w, Row(A, i), Row(M, i));
    }
    DotCong(n, u, Apply(n, A, w), Apply(n, M, w));
  }

  /** Every Cholesky pivot of the ridge normal matrix is at least ridge: the solver never fails. */
  lemma {:induction false} RidgePivots(fs: seq<Sample>, ridge: real, A: Mat, sqrt: real -> real, n: nat, m: nat)
    requires IsSqrt(sqrt) && ridge > 0.0 && m <= n
    requires Same(n, n, A, NormalMatrix(fs, ridge))
    ensures forall j :: 0 <= j < m ==> Pivot(A, sqrt, j) >= ridge
    decreases m
  {
    hide Bilinear;
    if m > 0 {
      var M, j := NormalMatrix(fs, ridge), m - 1;
      var v := PivotVector(A, sqrt, j);
      RidgePivots(fs, ridge, A, sqrt, n, j);
      NormalMatrixSymmetric(fs, ridge, n);
      assert Symmetric(A, n);
      PivotIsQuadraticForm(A, sqrt, n, j);
      BilinearCong(n, A, M, v, v);
      NormalMatrixPositive(fs, n, ridge, v, j);
    }
  }

  // ------------------------------------------------------------- the minimiser

  ghost function Difference(u: int -> real, w: int -> real): int -> real {
    (i: int) => u(i) - w(i)
  }

  lemma DotDifference(n: nat, u: int -> real, w: int -> real, x: int -> real)
    ensures Dot(n, Difference(u, w), x) == Dot(n, u, x) - Dot(n, w, x)
  {
    hide Dot;
    var d := Difference(u, w);
    DotLinear(n, x, -1.0, u, w, d);
    DotCommutes(n, d, x);
    DotCommutes(n, u, x);
    DotCommutes(n, w, x);
  }

  lemma SquareExpansion(y: real, a: real, b: real, c: real)
    requires c == a - b
    ensures (y - a) * (y - a) == (y - b) * (y - b) + c * c + 2.0 * (c * b - c * y)
  {
  }

  lemma LastSample(fs: seq<Sample>, n: nat, u: int -> real, w: int -> real, t: int, a: real, b: real, y: real)
    requires |fs| > 0
    requires a == Dot(n, u, fs[|fs| - 1].x) && b == Dot(n, w, fs[|fs| - 1].x) && y == fs[|fs| - 1].y(t)
    ensures Loss(fs, n, w, t) == Loss(fs[..|fs| - 1], n, w, t) + (y - b) * (y - b)
    ensures Inner(fs, n, u, w) == Inner(fs[..|fs| - 1], n, u, w) + a * b
    ensures InnerTarget(fs, n, u, t) == InnerTarget(fs[..|fs| - 1], n, u, t) + a * y
  {
    hide Dot, Loss, Inner, InnerTarget;
    LastLoss(fs, n, w, t, y - b);
    LastInner(fs, n, u, w, a, b);
    LastTarget(fs, n, u, t, a, y);
  }

  lemma LastLoss(fs: seq<Sample>, n: nat, w: int -> real, t: int, e: real)
    requires fs != [] && e == fs[|fs| - 1].y(t) - Dot(n, w, fs[|fs| - 1].x)
    ensures Loss(fs, n, w, t) == Loss(fs[..|fs| - 1], n, w, t) + e * e
  {
    hide Dot;
  }

  lemma LastInner(fs: seq<Sample>, n: nat, u: int -> real, w: int -> real, a: real, b: real)
    requires fs != [] && a == Dot(n, u, fs[|fs| - 1].x) && b == Dot(n, w, fs[|fs| - 1].x)
    ensures Inner(fs, n, u, w) == Inner(fs[..|fs| - 1], n, u, w) + a * b
  {
    hide Dot;
  }

  lemma LastTarget(fs: seq<Sample>, n: nat, u: int -> real, t: int, a: real, y: real)
    requires fs != [] && a == Dot(n, u, fs[|fs| - 1].x) && y == fs[|fs| - 1].y(t)
    ensures InnerTarget(fs, n, u, t) == InnerTarget(fs[..|fs| - 1], n, u, t) + a * y
  {
    hide Dot;
  }

  /** The loss at u, expanded around w. */
  lemma {:induction false} LossExpansion(fs: seq<Sample>, n: nat, u: int -> real, w: int -> real, d: int -> real, t: int)
    requires d == Difference(u, w)
    ensures Loss(fs, n, u, t)
            == Loss(fs, n, w, t) + Inner(fs, n, d, d) + 2.0 * (Inner(fs, n, d, w) - InnerTarget(fs, n, d, t))
  {
    hide Dot;
    if |fs| > 0 {
      var fs', x, y := fs[..|fs| - 1], fs[|fs| - 1].x, fs[|fs| - 1].y(t);
      var a, b, c := Dot(n, u, x), Dot(n, w, x), Dot(n, d, x);
      LossExpansion(fs', n, u, w, d, t);
      DotDifference(n, u, w, x);
      LastSample(fs, n, d, u, t, c, a, y);
      LastSample(fs, n, d, w, t, c, b, y);
      LastSample(fs, n, d, d, t, c, c, y);
      SquareExpansion(y, a, b, c);
    }
  }

  /** Weights w solve the normal equations for target t. */
  ghost predicate NormalEquations(fs: seq<Sample>, n: nat, ridge: real, w: int -> real, t: int) {
    forall i :: 0 <= i < n ==> Apply(n, NormalMatrix(fs, ridge), w)(i) == Cross(fs, i, t)
  }

  /** |u|^2 = |w|^2 + |u - w|^2 + 2 (u - w) . w */
  lemma NormExpansion(n: nat, u: int -> real, w: int -> real)
    ensures var d := Difference(u, w);
            Dot(n, u, u) == Dot(n, w, w) + Dot(n, d, d) + 2.0 * Dot(n, d, w)
  {
    hide Dot;
    var d := Difference(u, w);
    DotDifference(n, u, w, d);
    DotDifference(n, u, w, w);
    DotDifference(n, u, w, u);
    DotCommutes(n, u, w);
    DotCommutes(n, d, u);
    DotCommutes(n, d, w);
  }

  lemma ScaledExpansion(ridge: real, U: real, W: real, D: real, X: real)
    requires U == W + D + 2.0 * X
    ensures ridge * U == ridge * W + ridge * D + 2.0 * (ridge * X)
  {
  }

  /** Against any direction d, the normal equations balance the two inner products. */
  lemma NormalBalance(fs: seq<Sample>, n: nat, ridge: real, d: int -> real, w: int -> real, t: int)
    requires NormalEquations(fs, n, ridge, w, t)
    ensures Inner(fs, n, d, w) + ridge * Dot(n, d, w) == InnerTarget(fs, n, d, t)
  {
    hide Dot;
    BilinearGram(fs, n, ridge, d, w);
    DotCross(fs, n, d, t);
    DotCong(n, d, Apply(n, NormalMatrix(fs, ridge), w), Column(CrossMat(fs), t));
  }

  /** The objective exceeds its value at a normal-equation solution by exactly a positive form. */
  lemma ObjectiveGap(fs: seq<Sample>, n: nat, ridge: real, u: int -> real, w: int -> real, d: int -> real, t: int)
    requires NormalEquations(fs, n, ridge, w, t) && d == Difference(u, w)
    ensures Objective(fs, n, ridge, u, t) == Objective(fs, n, ridge, w, t)
                                              + Inner(fs, n, d, d) + ridge * Dot(n, d, d)
  {
    hide Dot, Loss, Inner, InnerTarget, NormalEquations;
    LossExpansion(fs, n, u, w, d, t);
    NormalBalance(fs, n, ridge, d, w, t);
    NormExpansion(n, u, w);
    ScaledExpansion(ridge, Dot(n, u, u), Dot(n, w, w), Dot(n, d, d), Dot(n, d, w));
  }

  /** A normal-equation solution is the one and only minimiser of the ridge objective. */
  lemma RidgeMinimiser(fs: seq<Sample>, n: nat, ridge: real, u: int -> real, w: int -> real, t: int)
    requires ridge > 0.0 && NormalEquations(fs, n, ridge, w, t)
    ensures Objective(fs, n, ridge, w, t) <= Objective(fs, n, ridge, u, t)
    ensures Objective(fs, n, ridge, w, t) == Objective(fs, n, ridge, u, t)
            ==> forall i :: 0 <= i < n ==> u(i) == w(i)
  {
    var d := Difference(u, w);
    ObjectiveGap(fs, n, ridge, u, w, d, t);
    InnerNonNeg(fs, n, d);
    DotSquareNonNeg(n, d);
    var D := Dot(n, d, d);
    ScaleMono(ridge, 0.0, D);
    if Objective(fs, n, ridge, w, t) == Objective(fs, n, ridge, u, t) {
      ZeroProduct(ridge, D);
      forall i | 0 <= i < n
        ensures u(i) == w(i)
      {
        SquareSign(d(i), d(i) * d(i));
      }
    }
  }

  /** Weights w minimise the ridge objective for target t, and nothing else does. */
  ghost predicate IsUniqueMinimiser(fs: seq<Sample>, n: nat, ridge: real, w: int -> real, t: int) {
    forall u: int -> real ::
      && Objective(fs, n, ridge, w, t) <= Objective(fs, n, ridge, u, t)
      && (Objective(fs, n, ridge, w, t) == Objective(fs, n, ridge, u, t) ==>
            forall i :: 0 <= i < n ==> u(i) == w(i))
  }

  lemma SolutionIsMinimiser(fs: seq<Sample>, n: nat, nt: nat, ridge: real, A: Mat, X: Mat, B: Mat, t: nat)
    requires ridge > 0.0 && t < nt
    requires Same(n, n, A, NormalMatrix(fs, ridge)) && Same(n, nt, B, CrossMat(fs))
    requires Solves(n, nt, SymmetricFromLower(A), X, B)
    ensures IsUniqueMinimiser(fs, n, ridge, Column(X, t), t)
  {
    hide Dot;
    var M, w := NormalMatrix(fs, ridge), Column(X, t);
    NormalMatrixSymmetric(fs, ridge, n);
    forall i | 0 <= i < n
      ensures Apply(n, M, w)(i) == Cross(fs, i, t)
    {
      var S := SymmetricFromLower(A);
      assert Product(n, S, X)(i, t) == B(i, t) == CrossMat(fs)(i, t);
      ProductIsDot(n, S, X, i, t);
      DotCommutes(n, Row(S, i), w);
      DotCong(n, w, Row(S, i), Row(M, i));
    }
    forall u: int -> real
      ensures Objective(fs, n, ridge, w, t) <= Objective(fs, n, ridge, u, t)
      ensures Objective(fs, n, ridge, w, t) == Objective(fs, n, ridge, u, t) ==>
                forall i :: 0 <= i < n ==> u(i) == w(i)
    {
      RidgeMinimiser(fs, n, ridge, u, w, t);
    }
  }
}
