/** The in-place Cholesky solver `sp_solve_spd` (core/src/shannon_prime_sqfree.c).

    The three passes overwrite their arrays. Each pass is proved to leave the values of a
    function of the *original* contents (`Factor`, `Fwd`, `Bwd`), and the theorem is about
    those functions: whenever the solver returns 0 the array B holds the solution X of
    A * X = B, where A is the symmetric matrix given by the original lower triangle. */
module SpdSolver {
  import opened Sums
  import opened Matrices
  import opened RealArith

  // ---------------------------------------------------------------- factorisation

  /** Row i, column j of the Cholesky factor; zero above the diagonal and after a failed pivot. */
  ghost function Factor(A: Mat, sqrt: real -> real, i: int, j: int): real
    decreases j, 2, i - j
  {
    if !(0 <= j <= i) then 0.0
    else if i == j then
      var p := Pivot(A, sqrt, j);
      if p <= 0.0 then 0.0 else sqrt(p)
    else
      var d := Factor(A, sqrt, j, j);
      if d == 0.0 then 0.0 else (A(i, j) - FactorDot(A, sqrt, i, j, j)) / d
  }

  /** Sum over k < n of L(i, k) * L(j, k). */
  ghost function FactorDot(A: Mat, sqrt: real -> real, i: int, j: int, n: nat): real
    decreases n, 0
  {
    if n == 0 then 0.0
    else FactorDot(A, sqrt, i, j, n - 1) + Times(Factor(A, sqrt, i, n - 1), Factor(A, sqrt, j, n - 1))
  }

  /** The value whose square root becomes diagonal entry j. */
  ghost function Pivot(A: Mat, sqrt: real -> real, j: nat): real
    decreases j, 1
  {
    A(j, j) - FactorDot(A, sqrt, j, j, j)
  }

  ghost function FactorMat(A: Mat, sqrt: real -> real): Mat {
    (i: int, j: int) => Factor(A, sqrt, i, j)
  }

  ghost predicate PivotsPositive(A: Mat, sqrt: real -> real, n: nat) {
    forall j :: 0 <= j < n ==> Pivot(A, sqrt, j) > 0.0
  }

  /** Columns before j hold the factor on and below the diagonal; everything else is untouched. */
  ghost predicate FactoredTo(A: array2<real>, A0: Mat, sqrt: real -> real, j: nat)
    requires A.Length0 == A.Length1
    reads A
  {
    && (forall i, c :: 0 <= c <= i < A.Length0 && c < j ==> A[i, c] == Factor(A0, sqrt, i, c))
    && (forall i, c :: 0 <= i < A.Length0 && 0 <= c < A.Length0 && (c >= j || i < c) ==> A[i, c] == A0(i, c))
  }

  /** The inner accumulation: entry (i, j) less the dot product of the finished parts of rows i and j. */
  method Reduce(A: array2<real>, i: nat, j: nat, ghost A0: Mat, sqrt: real -> real) returns (s: real)
    requires A.Length0 == A.Length1 && j <= i < A.Length0
    requires forall k :: 0 <= k < j ==> A[i, k] == Factor(A0, sqrt, i, k) && A[j, k] == Factor(A0, sqrt, j, k)
    ensures s == A[i, j] - FactorDot(A0, sqrt, i, j, j)
  {
    hide Times;
    s := A[i, j];
    for k := 0 to j
      invariant s == A[i, j] - FactorDot(A0, sqrt, i, j, k)
    {
      s := s - Times(A[i, k], A[j, k]);
    }
  }

  /** Everything below the diagonal of column j, once its diagonal entry is in place. */
  method FillColumn(A: array2<real>, j: nat, ghost A0: Mat, sqrt: real -> real)
    requires A.Length0 == A.Length1 && j < A.Length0
    requires forall i, c :: 0 <= c <= i < A.Length0 && c < j ==> A[i, c] == Factor(A0, sqrt, i, c)
    requires forall i :: j < i < A.Length0 ==> A[i, j] == A0(i, j)
    requires A[j, j] == Factor(A0, sqrt, j, j) > 0.0
    modifies A
    ensures forall i :: j < i < A.Length0 ==> A[i, j] == Factor(A0, sqrt, i, j)
    ensures forall i, c :: 0 <= i < A.Length0 && 0 <= c < A.Length0 && (c != j || i <= j) ==>
                             A[i, c] == old(A[i, c])
  {
    hide Times, FactorDot;
    var n := A.Length0;
    var inv := 1.0 / A[j, j];
    for i := j + 1 to n
      invariant forall r :: j < r < i ==> A[r, j] == Factor(A0, sqrt, r, j)
      invariant forall r, c :: 0 <= r < n && 0 <= c < n && (c != j || r <= j || r >= i) ==>
                                 A[r, c] == old(A[r, c])
    {
      var s := Reduce(A, i, j, A0, sqrt);
      A[i, j] := s * inv;
      assert A[i, j] == Factor(A0, sqrt, i, j);
    }
  }

  method Cholesky(A: array2<real>, sqrt: real -> real) returns (rc: int)
    requires A.Length0 == A.Length1
    requires IsSqrt(sqrt)
    modifies A
    ensures rc == 0 || rc == -1
    ensures rc == 0 <==> PivotsPositive(old(Entries(A)), sqrt, A.Length0)
    ensures rc == 0 ==> FactoredTo(A, old(Entries(A)), sqrt, A.Length0)
  {
    hide Times, FactorDot;
    var n := A.Length0;
    ghost var A0 := Entries(A);
    for j := 0 to n
      invariant FactoredTo(A, A0, sqrt, j)
      invariant forall c :: 0 <= c < j ==> Pivot(A0, sqrt, c) > 0.0
    {
      var sum := Reduce(A, j, j, A0, sqrt);
      assert sum == Pivot(A0, sqrt, j);
      if sum <= 0.0 {
        return -1;
      }
      A[j, j] := sqrt(sum);
      FillColumn(A, j, A0, sqrt);
    }
    return 0;
  }

  /** The factor reproduces the matrix: sum over k <= j of L(i, k) * L(j, k) is A(i, j), j <= i. */
  lemma FactorReproduces(A: Mat, sqrt: real -> real, i: nat, j: nat)
    requires IsSqrt(sqrt) && j <= i && Pivot(A, sqrt, j) > 0.0
    ensures Factor(A, sqrt, j, j) > 0.0
    ensures FactorDot(A, sqrt, i, j, j + 1) == A(i, j)
  {
    var p := Pivot(A, sqrt, j);
    assert sqrt(p) > 0.0 && sqrt(p) * sqrt(p) == p;
  }

  lemma {:induction false} FactorDotTerms(A: Mat, sqrt: real -> real, i: int, j: int, n: nat, f: int -> real)
    requires forall k :: 0 <= k < n ==> f(k) == Times(Factor(A, sqrt, i, k), Factor(A, sqrt, j, k))
    ensures FactorDot(A, sqrt, i, j, n) == Sum(0, n, f)
  {
    hide Factor, Times;
    if n > 0 {
      FactorDotTerms(A, sqrt, i, j, n - 1, f);
    }
  }

  lemma FactorDotIsSum(A: Mat, sqrt: real -> real, i: int, j: int, n: nat)
    ensures FactorDot(A, sqrt, i, j, n)
            == Product(n, FactorMat(A, sqrt), Transpose(FactorMat(A, sqrt)))(i, j)
  {
    hide Factor, FactorDot, Sum;
    var L := FactorMat(A, sqrt);
    var f, term := (k: int) => Times(Factor(A, sqrt, i, k), Factor(A, sqrt, j, k)), (k: int) => L(i, k) * Transpose(L)(k, j);
    FactorDotTerms(A, sqrt, i, j, n, f);
    forall k | 0 <= k < n
      ensures f(k) == term(k)
    {
      TimesIs(L(i, k), L(j, k));
    }
    SumCong(0, n, f, term);
  }

  lemma TimesIs(a: real, b: real)
    ensures Times(a, b) == a * b
  {
  }

  /** Terms past the diagonal vanish, so the dot product may run over any longer prefix. */
  lemma {:induction false} FactorDotExtend(A: Mat, sqrt: real -> real, i: nat, j: nat, m: nat)
    requires j <= i && j < m
    ensures FactorDot(A, sqrt, i, j, m) == FactorDot(A, sqrt, i, j, j + 1)
    decreases m
  {
    if m > j + 1 {
      FactorDotExtend(A, sqrt, i, j, m - 1);
    }
  }

  lemma {:induction false} FactorDotSymmetric(A: Mat, sqrt: real -> real, i: int, j: int, n: nat)
    ensures FactorDot(A, sqrt, i, j, n) == FactorDot(A, sqrt, j, i, n)
  {
    if n > 0 {
      hide Factor;
      FactorDotSymmetric(A, sqrt, i, j, n - 1);
    }
  }

  /** A = L * L^T on the whole square, for the symmetric reading of A's lower triangle. */
  lemma CholeskyIsFactorisation(A: Mat, sqrt: real -> real, n: nat)
    requires IsSqrt(sqrt) && PivotsPositive(A, sqrt, n)
    ensures Same(n, n, Product(n, FactorMat(A, sqrt), Transpose(FactorMat(A, sqrt))), SymmetricFromLower(A))
  {
    var L := FactorMat(A, sqrt);
    forall i, j | 0 <= i < n && 0 <= j < n
      ensures Product(n, L, Transpose(L))(i, j) == SymmetricFromLower(A)(i, j)
    {
      var lo, hi := if j <= i then j else i, if j <= i then i else j;
      FactorReproduces(A, sqrt, hi, lo);
      FactorDotExtend(A, sqrt, hi, lo, n);
      FactorDotSymmetric(A, sqrt, hi, lo, n);
      FactorDotIsSum(A, sqrt, i, j, n);
    }
  }

  // ---------------------------------------------------------------- substitution

  /** Forward substitution: the solution Z of L * Z = B. */
  ghost function Fwd(L: Mat, B: Mat, i: nat, t: int): real
    decreases i, 1
  {
    if L(i, i) == 0.0 then 0.0 else (B(i, t) - FwdDot(L, B, i, t, i)) / L(i, i)
  }

  /** Sum over k < m of L(i, k) * Z(k, t). */
  ghost function FwdDot(L: Mat, B: Mat, i: nat, t: int, m: nat): real
    decreases m, 0
  {
    if m == 0 then 0.0 else FwdDot(L, B, i, t, m - 1) + Times(L(i, m - 1), Fwd(L, B, m - 1, t))
  }

  /** Back substitution: the solution X of L^T * X = Z over rows below n. */
  ghost function Bwd(L: Mat, Z: Mat, n: nat, i: nat, t: int): real
    decreases n - i, n + 1
  {
    if i >= n || L(i, i) == 0.0 then 0.0 else (Z(i, t) - BwdDot(L, Z, n, i, t, n)) / L(i, i)
  }

  /** Sum over i < k < m of L(k, i) * X(k, t). */
  ghost function BwdDot(L: Mat, Z: Mat, n: nat, i: nat, t: int, m: nat): real
    requires i < n && m <= n
    decreases n - i, m
  {
    if m <= i + 1 then 0.0 else BwdDot(L, Z, n, i, t, m - 1) + Times(L(m - 1, i), Bwd(L, Z, n, m - 1, t))
  }

  ghost function FwdMat(L: Mat, B: Mat): Mat {
    (i: int, t: int) => if i < 0 then 0.0 else Fwd(L, B, i, t)
  }

  ghost function BwdMat(L: Mat, Z: Mat, n: nat): Mat {
    (i: int, t: int) => if i < 0 then 0.0 else Bwd(L, Z, n, i, t)
  }

  ghost predicate LowerTriangular(L: Mat, n: nat) {
    && (forall i :: 0 <= i < n ==> L(i, i) != 0.0)
    && (forall i, j :: 0 <= i < j < n ==> L(i, j) == 0.0)
  }

  method ForwardColumn(A: array2<real>, B: array2<real>, t: nat, ghost L: Mat, ghost B0: Mat)
    requires A.Length0 == A.Length1 == B.Length0 && A != B && t < B.Length1
    requires LowerTriangular(L, A.Length0)
    requires forall i, j :: 0 <= j <= i < A.Length0 ==> A[i, j] == L(i, j)
    requires forall i :: 0 <= i < B.Length0 ==> B[i, t] == B0(i, t)
    modifies B
    ensures forall i :: 0 <= i < B.Length0 ==> B[i, t] == Fwd(L, B0, i, t)
    ensures forall i, u :: 0 <= i < B.Length0 && 0 <= u < B.Length1 && u != t ==> B[i, u] == old(B[i, u])
  {
    hide Times;
    var ns := B.Length0;
    for i := 0 to ns
      invariant forall r, u :: 0 <= r < ns && 0 <= u < B.Length1 && u != t ==> B[r, u] == old(B[r, u])
      invariant forall r :: 0 <= r < i ==> B[r, t] == Fwd(L, B0, r, t)
      invariant forall r :: i <= r < ns ==> B[r, t] == B0(r, t)
    {
      var s := B[i, t];
      for k := 0 to i
        invariant s == B0(i, t) - FwdDot(L, B0, i, t, k)
      {
        assert A[i, k] == L(i, k);
        s := s - Times(A[i, k], B[k, t]);
      }
      assert A[i, i] == L(i, i) != 0.0;
      B[i, t] := s / A[i, i];
    }
  }

  method ForwardSubstitute(A: array2<real>, B: array2<real>, ghost L: Mat)
    requires A.Length0 == A.Length1 == B.Length0 && A != B
    requires LowerTriangular(L, A.Length0)
    requires forall i, j :: 0 <= j <= i < A.Length0 ==> A[i, j] == L(i, j)
    modifies B
    ensures Same(B.Length0, B.Length1, Entries(B), FwdMat(L, old(Entries(B))))
  {
    ghost var B0 := Entries(B);
    for t := 0 to B.Length1
      invariant forall i, u :: 0 <= i < B.Length0 && 0 <= u < t ==> B[i, u] == Fwd(L, B0, i, u)
      invariant forall i, u :: 0 <= i < B.Length0 && t <= u < B.Length1 ==> B[i, u] == B0(i, u)
    {
      ForwardColumn(A, B, t, L, B0);
    }
  }

  method BackColumn(A: array2<real>, B: array2<real>, t: nat, ghost L: Mat, ghost Z: Mat)
    requires A.Length0 == A.Length1 == B.Length0 && A != B && t < B.Length1
    requires LowerTriangular(L, A.Length0)
    requires forall i, j :: 0 <= j <= i < A.Length0 ==> A[i, j] == L(i, j)
    requires forall i :: 0 <= i < B.Length0 ==> B[i, t] == Z(i, t)
    modifies B
    ensures forall i :: 0 <= i < B.Length0 ==> B[i, t] == Bwd(L, Z, B.Length0, i, t)
    ensures forall i, u :: 0 <= i < B.Length0 && 0 <= u < B.Length1 && u != t ==> B[i, u] == old(B[i, u])
  {
    hide Times;
    var ns := B.Length0;
    var i := ns - 1;
    while i >= 0
      invariant -1 <= i < ns
      invariant forall r, u :: 0 <= r < ns && 0 <= u < B.Length1 && u != t ==> B[r, u] == old(B[r, u])
      invariant forall r :: i < r < ns ==> B[r, t] == Bwd(L, Z, ns, r, t)
      invariant forall r :: 0 <= r <= i ==> B[r, t] == Z(r, t)
    {
      var s := B[i, t];
      for k := i + 1 to ns
        invariant s == Z(i, t) - BwdDot(L, Z, ns, i, t, k)
      {
        assert A[k, i] == L(k, i);
        s := s - Times(A[k, i], B[k, t]);
      }
      assert A[i, i] == L(i, i) != 0.0;
      B[i, t] := s / A[i, i];
      i := i - 1;
    }
  }

  method BackSubstitute(A: array2<real>, B: array2<real>, ghost L: Mat)
    requires A.Length0 == A.Length1 == B.Length0 && A != B
    requires LowerTriangular(L, A.Length0)
    requires forall i, j :: 0 <= j <= i < A.Length0 ==> A[i, j] == L(i, j)
    modifies B
    ensures Same(B.Length0, B.Length1, Entries(B), BwdMat(L, old(Entries(B)), B.Length0))
  {
    ghost var Z := Entries(B);
    for t := 0 to B.Length1
      invariant forall i, u :: 0 <= i < B.Length0 && 0 <= u < t ==> B[i, u] == Bwd(L, Z, B.Length0, i, u)
      invariant forall i, u :: 0 <= i < B.Length0 && t <= u < B.Length1 ==> B[i, u] == Z(i, u)
    {
      BackColumn(A, B, t, L, Z);
    }
  }

  lemma {:induction false} FwdDotIsSum(L: Mat, B: Mat, i: nat, t: int, m: nat, f: int -> real)
    requires forall k :: 0 <= k < m ==> f(k) == L(i, k) * FwdMat(L, B)(k, t)
    ensures FwdDot(L, B, i, t, m) == Sum(0, m, f)
  {
    hide Fwd, Times;
    if m > 0 {
      FwdDotIsSum(L, B, i, t, m - 1, f);
      TimesIs(L(i, m - 1), Fwd(L, B, m - 1, t));
      assert FwdMat(L, B)(m - 1, t) == Fwd(L, B, m - 1, t);
      NextFwdDot(L, B, i, t, m);
      assert Sum(0, m, f) == Sum(0, m - 1, f) + f(m - 1);
    }
  }

  lemma NextFwdDot(L: Mat, B: Mat, i: nat, t: int, m: nat)
    requires m > 0
    ensures FwdDot(L, B, i, t, m) == FwdDot(L, B, i, t, m - 1) + Times(L(i, m - 1), Fwd(L, B, m - 1, t))
  {
    hide Times;
  }

  /** L * Z = B. */
  lemma ForwardSolves(L: Mat, B: Mat, n: nat, i: nat, t: int)
    requires LowerTriangular(L, n) && i < n
    ensures Product(n, L, FwdMat(L, B))(i, t) == B(i, t)
  {
    hide Fwd, FwdDot;
    var term := (k: int) => L(i, k) * FwdMat(L, B)(k, t);
    FwdDotIsSum(L, B, i, t, i + 1, term);
    ForwardTerm(L, B, n, i, t);
    forall k | i + 1 <= k < n
      ensures term(k) == 0.0
    {
      assert L(i, k) == 0.0;
    }
    hide Sum;
    SumSplit(0, i + 1, n, term);
    SumZero(i + 1, n, term);
  }

  lemma ForwardTerm(L: Mat, B: Mat, n: nat, i: nat, t: int)
    requires LowerTriangular(L, n) && i < n
    ensures FwdDot(L, B, i, t, i + 1) == B(i, t)
  {
    hide Times;
    TimesIs(L(i, i), Fwd(L, B, i, t));
    TimesQuotient(B(i, t) - FwdDot(L, B, i, t, i), L(i, i), Fwd(L, B, i, t), Times(L(i, i), Fwd(L, B, i, t)));
  }

  lemma {:induction false} BwdDotIsSum(L: Mat, Z: Mat, n: nat, i: nat, t: int, m: nat)
    requires i < m <= n
    ensures BwdDot(L, Z, n, i, t, m) == Sum(i + 1, m, (k: int) => Transpose(L)(i, k) * BwdMat(L, Z, n)(k, t))
    decreases m
  {
    if m > i + 1 {
      BwdDotIsSum(L, Z, n, i, t, m - 1);
      var term := (k: int) => Transpose(L)(i, k) * BwdMat(L, Z, n)(k, t);
      assert BwdMat(L, Z, n)(m - 1, t) == Bwd(L, Z, n, m - 1, t);
      assert term(m - 1) == L(m - 1, i) * Bwd(L, Z, n, m - 1, t);
      assert BwdDot(L, Z, n, i, t, m) == BwdDot(L, Z, n, i, t, m - 1) + term(m - 1);
      assert Sum(i + 1, m, term) == Sum(i + 1, m - 1, term) + term(m - 1);
    }
  }

  /** L^T * X = Z. */
  lemma BackSolves(L: Mat, Z: Mat, n: nat, i: nat, t: int)
    requires LowerTriangular(L, n) && i < n
    ensures Product(n, Transpose(L), BwdMat(L, Z, n))(i, t) == Z(i, t)
  {
    hide Bwd, BwdDot;
    var term := (k: int) => Transpose(L)(i, k) * BwdMat(L, Z, n)(k, t);
    forall k | 0 <= k < i
      ensures term(k) == 0.0
    {
      assert Transpose(L)(i, k) == L(k, i) == 0.0;
    }
    DiagonalTerm(L, Z, n, i, t, term(i));
    BwdDotIsSum(L, Z, n, i, t, n);
    assert Sum(i + 1, n, term) == BwdDot(L, Z, n, i, t, n);
    hide Sum;
    SumSplit(0, i, n, term);
    SumFirst(i, n, term);
    SumZero(0, i, term);
  }

  lemma DiagonalTerm(L: Mat, Z: Mat, n: nat, i: nat, t: int, term: real)
    requires LowerTriangular(L, n) && i < n && term == Transpose(L)(i, i) * BwdMat(L, Z, n)(i, t)
    ensures term == Z(i, t) - BwdDot(L, Z, n, i, t, n)
  {
    hide BwdDot;
    TimesQuotient(Z(i, t) - BwdDot(L, Z, n, i, t, n), L(i, i), Bwd(L, Z, n, i, t), term);
  }

  lemma TimesQuotient(z: real, l: real, x: real, lx: real)
    requires l != 0.0 && x == z / l && lx == l * x
    ensures lx == z
  {
  }

  // ---------------------------------------------------------------- the solver

  /** A * X = B for an n x n matrix A and n x nt matrices X, B. */
  ghost predicate Solves(n: nat, nt: nat, A: Mat, X: Mat, B: Mat) {
    Same(n, nt, Product(n, A, X), B)
  }

  /** Both substitutions in turn solve the system of the factored matrix. */
  lemma SubstitutionsSolve(L: Mat, S: Mat, B: Mat, Z: Mat, X: Mat, n: nat, nt: nat)
    requires LowerTriangular(L, n)
    requires Same(n, n, Product(n, L, Transpose(L)), S)
    requires Same(n, nt, Z, FwdMat(L, B))
    requires Same(n, nt, X, BwdMat(L, Z, n))
    ensures Solves(n, nt, S, X, B)
  {
    forall i, t | 0 <= i < n && 0 <= t < nt
      ensures Product(n, S, X)(i, t) == B(i, t)
    {
      var LtX := Product(n, Transpose(L), X);
      ProductCongLeft(n, Product(n, L, Transpose(L)), S, X, i, t);
      ProductAssoc(n, n, L, Transpose(L), X, i, t);
      forall k | 0 <= k < n
        ensures LtX(k, t) == FwdMat(L, B)(k, t)
      {
        BackSolves(L, Z, n, k, t);
        ProductCongRight(n, Transpose(L), X, BwdMat(L, Z, n), k, t);
      }
      ProductCongRight(n, L, LtX, FwdMat(L, B), i, t);
      ForwardSolves(L, B, n, i, t);
    }
  }

  method SolveSpd(A: array2<real>, B: array2<real>, sqrt: real -> real) returns (rc: int)
    requires A.Length0 == A.Length1 == B.Length0 && A != B
    requires IsSqrt(sqrt)
    modifies A, B
    ensures rc == 0 || rc == -1
    ensures rc == 0 <==> PivotsPositive(old(Entries(A)), sqrt, A.Length0)
    ensures rc == 0 ==> Solves(B.Length0, B.Length1, SymmetricFromLower(old(Entries(A))), Entries(B), old(Entries(B)))
    ensures rc != 0 ==> Entries(B) == old(Entries(B))
  {
    ghost var A0, B0 := Entries(A), Entries(B);
    ghost var L := FactorMat(A0, sqrt);
    rc := Cholesky(A, sqrt);
    if rc != 0 {
      return -1;
    }
    ghost var n := A.Length0;
    CholeskyIsFactorisation(A0, sqrt, n);
    forall i | 0 <= i < n
      ensures L(i, i) != 0.0
    {
      FactorReproduces(A0, sqrt, i, i);
    }
    ForwardSubstitute(A, B, L);
    ghost var Z := Entries(B);
    BackSubstitute(A, B, L);
    SubstitutionsSolve(L, SymmetricFromLower(A0), B0, Z, Entries(B), n, B.Length1);
    return 0;
  }
}
