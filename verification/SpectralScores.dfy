/** The "SVD spectral entropy" scores of `sp_svd_entropy_scores` (core/src/shannon_prime.c), and
    what they amount to: up to the off-diagonal mass the eigen-solver leaves behind, the score of
    a dimension is its marginal variance divided by the total variance. */
module SpectralScores {
  import opened Jacobi
  import opened JacobiTheory
  import opened Matrices
  import opened RealArith
  import opened Sums

  ghost function Diagonal(A: Mat): int -> real {
    (k: int) => A(k, k)
  }

  ghost function RowSquares(V: Mat, i: int): int -> real {
    (k: int) => V(i, k) * V(i, k)
  }

  /** Sum over k of V(i, k)^2 * d(k). */
  ghost function Weight(n: nat, V: Mat, d: int -> real, i: int): real {
    Dot(n, RowSquares(V, i), d)
  }

  // ---------------------------------------------------------------- V A V^T is the input

  /** From A = V^T A0 V and V V^T = I: V A V^T = A0. */
  lemma Reconstruction(n: nat, A0: Mat, A: Mat, V: Mat)
    requires Orthogonal(n, V) && Same(n, n, A, Conjugate(n, A0, V))
    ensures Same(n, n, Product(n, V, Product(n, A, Transpose(V))), A0)
  {
    hide Product;
    var Vt, AV := Transpose(V), Product(n, A0, V);
    var VA, AVt := Product(n, V, A), Product(n, A, Vt);
    forall i, j | 0 <= i < n && 0 <= j < n
      ensures Product(n, V, AVt)(i, j) == A0(i, j)
    {
      forall k | 0 <= k < n
        ensures VA(i, k) == AV(i, k)
      {
        ProductCongRight(n, V, A, Product(n, Vt, AV), i, k);
        ProductAssoc(n, n, V, Vt, AV, i, k);
        IdentityLeft(n, Product(n, V, Vt), AV, i, k);
      }
      ProductAssoc(n, n, V, A, Vt, i, j);
      ProductCongLeft(n, VA, AV, Vt, i, j);
      ProductAssoc(n, n, A0, V, Vt, i, j);
      IdentityRight(n, A0, Product(n, V, Vt), i, j);
    }
  }

  /** Diagonal entries of V^T A0 V are quadratic forms of A0. */
  lemma ConjugateDiagonal(n: nat, A0: Mat, V: Mat, k: nat)
    requires k < n
    ensures Conjugate(n, A0, V)(k, k) == Bilinear(n, A0, Column(V, k), Column(V, k))
  {
    hide Dot, Product;
    var v := Column(V, k);
    var AV := Product(n, A0, V);
    ProductIsDot(n, Transpose(V), AV, k, k);
    forall i | 0 <= i < n
      ensures Column(AV, k)(i) == Apply(n, A0, v)(i)
    {
      ProductIsDot(n, A0, V, i, k);
      DotCommutes(n, Row(A0, i), v);
    }
    DotCong(n, Row(Transpose(V), k), Column(AV, k), Apply(n, A0, v));
    DotCommutes(n, Row(Transpose(V), k), Apply(n, A0, v));
    DotCong(n, Apply(n, A0, v), Row(Transpose(V), k), v);
    DotCommutes(n, Apply(n, A0, v), v);
  }

  // ---------------------------------------------------------------- distance to the diagonal

  /** Row k of A without its diagonal entry. */
  ghost function OffRow(A: Mat, k: int): int -> real {
    (l: int) => if l == k then 0.0 else A(k, l)
  }

  lemma OffRowMass(n: nat, A: Mat, k: int)
    ensures Dot(n, OffRow(A, k), OffRow(A, k)) == FullRowOff(A, n, k)
  {
    var r := OffRow(A, k);
    var f, g := (l: int) => r(l) * r(l), (l: int) => OffSquare(A, k, l);
    forall l | 0 <= l < n
      ensures f(l) == g(l)
    {
      if l == k {
        assert r(l) == 0.0;
      } else {
        assert r(l) == A(k, l);
      }
    }
    SumCong(0, n, f, g);
  }

  lemma RowIsUnit(n: nat, V: Mat, i: nat)
    requires Orthogonal(n, V) && i < n
    ensures Dot(n, Row(V, i), Row(V, i)) == 1.0
  {
    hide Dot, Product;
    ProductIsDot(n, V, Transpose(V), i, i);
    DotCong(n, Row(V, i), Column(Transpose(V), i), Row(V, i));
  }

  /** (A V^T)(k, i) = A(k, k) V(i, k) + the contribution of the off-diagonal entries of row k. */
  lemma SplitRow(n: nat, A: Mat, V: Mat, k: nat, i: nat)
    requires k < n && i < n
    ensures Product(n, A, Transpose(V))(k, i) == Dot(n, Row(V, i), OffRow(A, k)) + A(k, k) * V(i, k)
  {
    hide Dot, Product;
    var unit := (l: int) => if l == k then 1.0 else 0.0;
    ProductIsDot(n, A, Transpose(V), k, i);
    DotCommutes(n, Row(A, k), Column(Transpose(V), i));
    DotCommutes(n, Column(Transpose(V), i), Row(A, k));
    DotCong(n, Row(A, k), Column(Transpose(V), i), Row(V, i));
    DotCommutes(n, Row(A, k), Row(V, i));
    DotLinear(n, Row(V, i), A(k, k), OffRow(A, k), unit, Row(A, k));
    DotSingle(n, k, Row(V, i), unit);
  }

  /** The weighted diagonal misses the input's diagonal entry by at most the off-diagonal mass. */
  lemma WeightedDiagonal(n: nat, A0: Mat, A: Mat, V: Mat, i: nat, gap: real)
    requires Orthogonal(n, V) && Symmetric(A, n) && Same(n, n, A, Conjugate(n, A0, V)) && i < n
    requires gap == A0(i, i) - Weight(n, V, Diagonal(A), i)
    ensures gap * gap <= 2.0 * Off(A, n)
  {
    hide Dot, Product, Off, FullRowOff, Orthogonal;
    var u := Row(V, i);
    var rest := (k: int) => Dot(n, u, OffRow(A, k));
    var AVt := Product(n, A, Transpose(V));
    // A0(i, i) = sum over k of V(i, k) * (A V^T)(k, i) = weighted diagonal + u . rest
    Reconstruction(n, A0, A, V);
    ProductIsDot(n, V, AVt, i, i);
    GapIsRest(n, A, V, i, rest);
    assert gap == Dot(n, u, rest);
    RowIsUnit(n, V, i);
    UnitCauchySchwarz(n, u, rest);
    RestMass(n, A, V, i, rest);
    FullOffIsTwice(A, n);
  }

  lemma GapIsRest(n: nat, A: Mat, V: Mat, i: nat, rest: int -> real)
    requires i < n && rest == ((k: int) => Dot(n, Row(V, i), OffRow(A, k)))
    ensures Dot(n, Row(V, i), Column(Product(n, A, Transpose(V)), i))
            == Dot(n, Row(V, i), rest) + Weight(n, V, Diagonal(A), i)
  {
    hide Dot, Product;
    var u, column := Row(V, i), Column(Product(n, A, Transpose(V)), i);
    var scaled := (k: int) => A(k, k) * V(i, k);
    forall k | 0 <= k < n
      ensures column(k) == rest(k) + 1.0 * scaled(k)
    {
      SplitRow(n, A, V, k, i);
    }
    DotLinear(n, u, 1.0, rest, scaled, column);
    WeightAsDot(n, A, V, i, scaled);
  }

  lemma Reassociate(v: real, a: real, av: real, vv: real)
    requires av == a * v && vv == v * v
    ensures v * av == vv * a
  {
  }

  lemma WeightAsDot(n: nat, A: Mat, V: Mat, i: nat, scaled: int -> real)
    requires scaled == ((k: int) => A(k, k) * V(i, k))
    ensures Dot(n, Row(V, i), scaled) == Weight(n, V, Diagonal(A), i)
  {
    var f, g := (k: int) => Row(V, i)(k) * scaled(k), (k: int) => RowSquares(V, i)(k) * Diagonal(A)(k);
    forall k | 0 <= k < n
      ensures f(k) == g(k)
    {
      Reassociate(V(i, k), A(k, k), scaled(k), RowSquares(V, i)(k));
    }
    SumCong(0, n, f, g);
  }

  /** Row by row, the off-diagonal part seen from a unit vector is no larger than its mass. */
  lemma RestMass(n: nat, A: Mat, V: Mat, i: nat, rest: int -> real)
    requires i < n && Dot(n, Row(V, i), Row(V, i)) == 1.0
    requires rest == ((k: int) => Dot(n, Row(V, i), OffRow(A, k)))
    ensures Dot(n, rest, rest) <= FullOff(A, n)
  {
    hide FullRowOff;
    var squares := (k: int) => rest(k) * rest(k);
    var masses := (k: int) => FullRowOff(A, n, k);
    forall k | 0 <= k < n
      ensures squares(k) <= masses(k)
    {
      hide Dot;
      UnitCauchySchwarz(n, Row(V, i), OffRow(A, k));
      OffRowMass(n, A, k);
    }
    SumMono(0, n, squares, masses);
  }

  // ---------------------------------------------------------------- totals

  /** Over all dimensions, the weights distribute exactly the total of d. */
  lemma WeightsSumUp(n: nat, V: Mat, d: int -> real)
    requires Orthogonal(n, V)
    ensures Sum(0, n, (i: int) => Weight(n, V, d, i)) == Sum(0, n, d)
  {
    var F: Mat := (i: int, k: int) => d(k) * RowSquares(V, i)(k);
    var rows := (i: int) => Weight(n, V, d, i);
    forall i | 0 <= i < n
      ensures rows(i) == Sum(0, n, (k: int) => F(i, k))
    {
      DotCommutes(n, RowSquares(V, i), d);
      SumCong(0, n, (k: int) => d(k) * RowSquares(V, i)(k), (k: int) => F(i, k));
    }
    forall k | 0 <= k < n
      ensures d(k) == Sum(0, n, (i: int) => F(i, k))
    {
      ColumnIsUnit(n, V, k);
      var column, scaled := (i: int) => RowSquares(V, i)(k), (i: int) => F(i, k);
      SumScale(0, n, d(k), column, scaled);
    }
    SumSwap(0, n, 0, n, F, rows, d);
  }

  lemma ColumnIsUnit(n: nat, V: Mat, k: nat)
    requires Orthogonal(n, V) && k < n
    ensures Sum(0, n, (i: int) => RowSquares(V, i)(k)) == 1.0
  {
    assert Product(n, Transpose(V), V)(k, k) == 1.0;
    var f, g := (i: int) => Transpose(V)(k, i) * V(i, k), (i: int) => RowSquares(V, i)(k);
    forall i | 0 <= i < n
      ensures f(i) == g(i)
    {
      var v := V(i, k);
      assert Transpose(V)(k, i) == v;
      assert f(i) == v * v;
      assert RowSquares(V, i)(k) == v * v;
    }
    SumCong(0, n, f, g);
  }

  // ---------------------------------------------------------------- the scores

  ghost function Clamp(x: real): real {
    if x < 0.0 then 0.0 else x
  }

  ghost function ClampedDiagonal(A: Mat): int -> real {
    (k: int) => Clamp(A(k, k))
  }

  lemma ClampNonNeg(A: Mat, k: int)
    ensures ClampedDiagonal(A)(k) >= 0.0
  {
    assert ClampedDiagonal(A)(k) == Clamp(A(k, k));
  }

  /** Negative eigenvalues set to zero, in place, with their total. */
  method ClampEigenvalues(eigenvalues: array<real>, ghost A: Mat) returns (total: real)
    requires forall k :: 0 <= k < eigenvalues.Length ==> eigenvalues[k] == A(k, k)
    modifies eigenvalues
    ensures forall k :: 0 <= k < eigenvalues.Length ==> eigenvalues[k] == ClampedDiagonal(A)(k)
    ensures total == Sum(0, eigenvalues.Length, ClampedDiagonal(A))
  {
    total := 0.0;
    for k := 0 to eigenvalues.Length
      invariant forall j :: 0 <= j < k ==> eigenvalues[j] == ClampedDiagonal(A)(j)
      invariant forall j :: k <= j < eigenvalues.Length ==> eigenvalues[j] == A(j, j)
      invariant total == Sum(0, k, ClampedDiagonal(A))
    {
      if eigenvalues[k] < 0.0 {
        eigenvalues[k] := 0.0;
      }
      total := total + eigenvalues[k];
    }
  }

  method ScaleAll(eigenvalues: array<real>, factor: real)
    modifies eigenvalues
    ensures forall k :: 0 <= k < eigenvalues.Length ==> eigenvalues[k] == old(eigenvalues[k]) * factor
  {
    for k := 0 to eigenvalues.Length
      invariant forall j :: 0 <= j < k ==> eigenvalues[j] == old(eigenvalues[j]) * factor
      invariant forall j :: k <= j < eigenvalues.Length ==> eigenvalues[j] == old(eigenvalues[j])
    {
      eigenvalues[k] := eigenvalues[k] * factor;
    }
  }

  /** scores[i] = sum over k of V(i, k)^2 * p(k). */
  method WeightRows(V: array2<real>, probabilities: array<real>, scores: array<real>, ghost p: int -> real)
    requires V.Length0 == V.Length1 == probabilities.Length == scores.Length && probabilities != scores
    requires forall k :: 0 <= k < probabilities.Length ==> probabilities[k] == p(k)
    modifies scores
    ensures forall i :: 0 <= i < scores.Length ==> scores[i] == Weight(scores.Length, Entries(V), p, i)
  {
    var n := scores.Length;
    for i := 0 to n
      invariant forall j :: 0 <= j < i ==> scores[j] == Weight(n, Entries(V), p, j)
    {
      var s := 0.0;
      for k := 0 to n
        invariant s == Weight(k, Entries(V), p, i)
      {
        var vik := V[i, k];
        s := s + vik * vik * probabilities[k];
      }
      scores[i] := s;
    }
  }

  /** The scores are a probability distribution, for any symmetric input. For a positive semidefinite
      input the solver diagonalised exactly, they are refused exactly when the total variance is
      below the threshold, and otherwise each is the marginal variance share up to what is left
      off the diagonal. */
  ghost predicate ScoresDescribe(n: nat, cov: Mat, A: Mat, scores: int -> real) {
    forall i :: 0 <= i < n ==> IsShare(cov(i, i), Trace(cov, n), scores(i), Off(A, n))
  }

  /** Variance c is the share s of the total, up to the residue. */
  ghost predicate IsShare(c: real, total: real, s: real, residue: real) {
    var gap := c - Times(total, s);
    gap * gap <= 2.0 * residue
  }

  method SvdEntropyScores(cov: array2<real>, scores: array<real>, sqrt: real -> real)
    returns (rc: int, ghost run: JacobiRun)
    requires cov.Length0 == cov.Length1 == scores.Length
    requires IsSqrt(sqrt) && Symmetric(Entries(cov), cov.Length0)
    modifies cov, scores
    ensures rc == 0 || rc == -1
    ensures rc == 0 ==> Sum(0, scores.Length, Values(scores)) == 1.0
    ensures rc == 0 ==> forall i :: 0 <= i < scores.Length ==> scores[i] >= 0.0
    ensures run.IsRun(scores.Length, old(Entries(cov)), Entries(cov), 50, sqrt)
    ensures Mass(old(Entries(cov)), scores.Length) <= 2.0 ==> run.Exact()
    ensures Trace(old(Entries(cov)), scores.Length) >= 0.000000000000000000000000000001 ==> rc == 0
    ensures run.Exact() && PositiveSemidefinite(scores.Length, old(Entries(cov))) ==>
              (rc == 0 <==> Trace(old(Entries(cov)), scores.Length) >= 0.000000000000000000000000000001)
    ensures run.Exact() && PositiveSemidefinite(scores.Length, old(Entries(cov))) && rc == 0 ==>
              ScoresDescribe(scores.Length, old(Entries(cov)), Entries(cov), Values(scores))
  {
    hide PositiveSemidefinite, ScoresDescribe, Invariant, Weight, Off, Trace, ClampedDiagonal, Values, Sum, Mass;
    hide JacobiRun.IsRun, JacobiRun.Exact;
    var n := scores.Length;
    ghost var A0 := Entries(cov);
    var eigenvalues, V := new real[n], new real[n, n];
    rc, run := JacobiEigen(cov, eigenvalues, V, 50, sqrt);
    ghost var exact := run.Exact();
    ghost var A, U := Entries(cov), Entries(V);
    var total := ClampEigenvalues(eigenvalues, A);
    ClampIsNoOp(n, A0, A, U, exact);
    ClampKeepsTrace(n, A0, A, U, exact);
    if total < 0.000000000000000000000000000001 {
      return -1, run;
    }
    Share(eigenvalues, V, scores, total, A0, A, exact);
    return 0, run;
  }

  /** Normalise the eigenvalues and spread them over the dimensions. */
  method Share(eigenvalues: array<real>, V: array2<real>, scores: array<real>, total: real, ghost A0: Mat, ghost A: Mat, ghost exact: bool)
    requires V.Length0 == V.Length1 == eigenvalues.Length == scores.Length && eigenvalues != scores
    requires Invariant(scores.Length, A0, A, Entries(V), exact)
    requires forall k :: 0 <= k < eigenvalues.Length ==> eigenvalues[k] == ClampedDiagonal(A)(k)
    requires total == Sum(0, scores.Length, ClampedDiagonal(A)) && total > 0.0
    modifies eigenvalues, scores
    ensures Sum(0, scores.Length, Values(scores)) == 1.0
    ensures forall i :: 0 <= i < scores.Length ==> scores[i] >= 0.0
    ensures exact && PositiveSemidefinite(scores.Length, A0) ==> ScoresDescribe(scores.Length, A0, A, Values(scores))
  {
    hide PositiveSemidefinite, ScoresDescribe, Invariant, Weight, Off, Trace, ClampedDiagonal, Sum;
    var n := scores.Length;
    var invTotal := 1.0 / total;
    ghost var d := ClampedDiagonal(A);
    ScaleAll(eigenvalues, invTotal);
    ghost var p := (k: int) => d(k) * invTotal;
    WeightRows(V, eigenvalues, scores, p);
    ScoresAreDistribution(n, A0, A, Entries(V), exact, d, total, invTotal, p, Values(scores));
    if exact && PositiveSemidefinite(n, A0) {
      ScoresAreShares(n, A0, A, Entries(V), exact, total, p, Values(scores));
    }
  }

  /** For a positive semidefinite input diagonalised exactly, no eigenvalue is clamped. */
  lemma ClampIsNoOp(n: nat, A0: Mat, A: Mat, V: Mat, exact: bool)
    requires Invariant(n, A0, A, V, exact)
    ensures exact && PositiveSemidefinite(n, A0) ==>
              && (forall k :: 0 <= k < n ==> ClampedDiagonal(A)(k) == A(k, k))
              && Sum(0, n, ClampedDiagonal(A)) == Trace(A0, n)
  {
    if exact && PositiveSemidefinite(n, A0) {
      forall k | 0 <= k < n
        ensures ClampedDiagonal(A)(k) == A(k, k)
      {
        ConjugateDiagonal(n, A0, V, k);
        assert Bilinear(n, A0, Column(V, k), Column(V, k)) >= 0.0;
      }
      SumCong(0, n, ClampedDiagonal(A), (k: int) => A(k, k));
      assert Sum(0, n, ClampedDiagonal(A)) == Trace(A, n);
    }
  }

  /** On every run, exact or not, the clamped total is at least the trace of the input. */
  lemma ClampKeepsTrace(n: nat, A0: Mat, A: Mat, V: Mat, exact: bool)
    requires Invariant(n, A0, A, V, exact)
    ensures Sum(0, n, ClampedDiagonal(A)) >= Trace(A0, n)
  {
    SumMono(0, n, (k: int) => A(k, k), ClampedDiagonal(A));
    assert Sum(0, n, (k: int) => A(k, k)) == Trace(A, n);
  }

  lemma ScoresAreDistribution(n: nat, A0: Mat, A: Mat, V: Mat, exact: bool, d: int -> real, total: real,
                              invTotal: real, p: int -> real, scores: int -> real)
    requires Invariant(n, A0, A, V, exact) && d == ClampedDiagonal(A)
    requires total == Sum(0, n, d) && total > 0.0 && invTotal == 1.0 / total
    requires p == ((k: int) => d(k) * invTotal)
    requires forall i :: 0 <= i < n ==> scores(i) == Weight(n, V, p, i)
    ensures Sum(0, n, scores) == 1.0
    ensures forall i :: 0 <= i < n ==> scores(i) >= 0.0
  {
    hide Invariant, Weight, Orthogonal;
    assert Orthogonal(n, V) by {
      OrthogonalPart(n, A0, A, V, exact);
    }
    SumCong(0, n, scores, (i: int) => Weight(n, V, p, i));
    WeightsSumUp(n, V, p);
    assert invTotal > 0.0 && invTotal * total == 1.0;
    SumScale(0, n, invTotal, d, p);
    forall k | 0 <= k < n
      ensures p(k) >= 0.0
    {
      ClampNonNeg(A, k);
      assert p(k) == d(k) * invTotal;
      NonNegativeProduct(d(k), invTotal, p(k));
    }
    forall i | 0 <= i < n
      ensures scores(i) >= 0.0
    {
      WeightNonNeg(n, V, p, i);
    }
  }

  lemma WeightNonNeg(n: nat, V: Mat, p: int -> real, i: nat)
    requires forall k :: 0 <= k < n ==> p(k) >= 0.0
    ensures Weight(n, V, p, i) >= 0.0
  {
    var squares := RowSquares(V, i);
    var term := (k: int) => squares(k) * p(k);
    forall k | 0 <= k < n
      ensures term(k) >= 0.0
    {
      SquareSign(V(i, k), squares(k));
      NonNegativeProduct(squares(k), p(k), term(k));
    }
    SumNonNeg(0, n, term);
  }

  lemma OrthogonalPart(n: nat, A0: Mat, A: Mat, V: Mat, exact: bool)
    requires Invariant(n, A0, A, V, exact)
    ensures Orthogonal(n, V)
  {
  }

  lemma NonNegativeProduct(a: real, b: real, ab: real)
    requires a >= 0.0 && b >= 0.0 && ab == a * b
    ensures ab >= 0.0
  {
  }

  lemma ScoresAreShares(n: nat, A0: Mat, A: Mat, V: Mat, exact: bool, total: real, p: int -> real, scores: int -> real)
    requires Invariant(n, A0, A, V, exact) && exact && PositiveSemidefinite(n, A0)
    requires total == Sum(0, n, ClampedDiagonal(A)) && total > 0.0
    requires p == ((k: int) => ClampedDiagonal(A)(k) * (1.0 / total))
    requires forall i :: 0 <= i < n ==> scores(i) == Weight(n, V, p, i)
    ensures ScoresDescribe(n, A0, A, scores)
  {
    hide Weight, Off, Trace, PositiveSemidefinite, IsShare, Times;
    ClampIsNoOp(n, A0, A, V, exact);
    assert total == Trace(A0, n);
    forall i | 0 <= i < n
      ensures IsShare(A0(i, i), Trace(A0, n), scores(i), Off(A, n))
    {
      WeightScales(n, A, V, i, total, p);
      var gap := A0(i, i) - Weight(n, V, Diagonal(A), i);
      WeightedDiagonal(n, A0, A, V, i, gap);
      ShareOfWeight(A0(i, i), total, scores(i), Weight(n, V, Diagonal(A), i), Off(A, n), gap);
    }
  }

  lemma ShareOfWeight(c: real, total: real, s: real, weight: real, residue: real, gap: real)
    requires Times(total, s) == weight && gap == c - weight && gap * gap <= 2.0 * residue
    ensures IsShare(c, total, s, residue)
  {
  }

  /** Undoing the normalisation: total * score = weighted diagonal. */
  lemma WeightScales(n: nat, A: Mat, V: Mat, i: nat, total: real, p: int -> real)
    requires total > 0.0 && p == ((k: int) => ClampedDiagonal(A)(k) * (1.0 / total))
    requires forall k :: 0 <= k < n ==> ClampedDiagonal(A)(k) == A(k, k)
    ensures Times(total, Weight(n, V, p, i)) == Weight(n, V, Diagonal(A), i)
  {
    hide Dot;
    var zero := (k: int) => 0.0;
    forall k | 0 <= k < n
      ensures Diagonal(A)(k) == zero(k) + total * p(k)
    {
      assert total * (A(k, k) * (1.0 / total)) == A(k, k);
    }
    DotZero(n, RowSquares(V, i), zero);
    DotLinear(n, RowSquares(V, i), total, zero, p, Diagonal(A));
  }

  /** The scores order two dimensions as their variances do, unless these lie closer than the square
      root of eight times the off-diagonal mass the solver stopped at. */
  lemma ScoresRankByVariance(n: nat, cov: Mat, A: Mat, scores: int -> real, i: nat, j: nat)
    requires ScoresDescribe(n, cov, A, scores) && Trace(cov, n) > 0.0 && i < n && j < n
    ensures var g := cov(j, j) - cov(i, i);
            g > 0.0 && g * g > 8.0 * Off(A, n) ==> scores(i) < scores(j)
    ensures Off(A, n) == 0.0 ==>
              && scores(i) == cov(i, i) / Trace(cov, n)
              && (scores(i) < scores(j) <==> cov(i, i) < cov(j, j))
  {
    hide Off, Trace, IsShare;
    SharesRank(cov(i, i), cov(j, j), Trace(cov, n), scores(i), scores(j), Off(A, n));
  }

  lemma SharesRank(c: real, d: real, total: real, s: real, r: real, residue: real)
    requires IsShare(c, total, s, residue) && IsShare(d, total, r, residue) && total > 0.0
    ensures d - c > 0.0 && (d - c) * (d - c) > 8.0 * residue ==> s < r
    ensures residue == 0.0 ==> s == c / total && (s < r <==> c < d)
  {
    hide Times;
    var a, b := c - Times(total, s), d - Times(total, r);
    assert a * a <= 2.0 * residue && b * b <= 2.0 * residue;
    ScaledOrder(total, s, r);
    if r <= s && d - c > 0.0 {
      DifferenceSquare(a, b, d - c, 2.0 * residue);
    }
    if residue == 0.0 {
      SquareSign(a, a * a);
      SquareSign(b, b * b);
      QuotientOf(c, total, s);
    }
  }

  /** 0 < g <= b - a with a^2, b^2 <= m gives g^2 <= 4 m. */
  lemma DifferenceSquare(a: real, b: real, g: real, m: real)
    requires 0.0 < g <= b - a && a * a <= m && b * b <= m
    ensures g * g <= 4.0 * m
  {
    var d := b - a;
    assert g * g <= d * d by {
      ScaleMono(g, g, d);
      ScaleMono(d, g, d);
    }
    var e := a + b;
    SquareSign(e, e * e);
    assert d * d + e * e == 2.0 * (a * a) + 2.0 * (b * b);
  }
}
