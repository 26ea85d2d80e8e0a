/** Matrices as total functions of a row and a column, and snapshots of two-dimensional arrays. */
module Matrices {
  import opened RealArith
  import opened Sums

  type Mat = (int, int) -> real

  /** The square root the C code takes from libm, over the reals. */
  ghost predicate IsSqrt(sqrt: real -> real) {
    forall x: real :: x > 0.0 ==> sqrt(x) > 0.0 && sqrt(x) * sqrt(x) == x
  }

  /** The contents of an array as a value: later writes to the array do not affect it. */
  ghost function Entries(a: array2<real>): (m: Mat)
    reads a
    ensures forall i, j :: 0 <= i < a.Length0 && 0 <= j < a.Length1 ==> m(i, j) == a[i, j]
  {
    var rows := seq(a.Length0, i requires 0 <= i < a.Length0 reads a =>
                      seq(a.Length1, j requires 0 <= j < a.Length1 reads a => a[i, j]));
    (i: int, j: int) => if 0 <= i < |rows| && 0 <= j < |rows[i]| then rows[i][j] else 0.0
  }

  /** (P * Q)(i, j) over inner dimension n. */
  ghost function Product(n: nat, P: Mat, Q: Mat): Mat {
    (i: int, j: int) => Sum(0, n, (k: int) => P(i, k) * Q(k, j))
  }

  ghost function Transpose(P: Mat): Mat {
    (i: int, j: int) => P(j, i)
  }

  ghost const Identity: Mat := (i: int, j: int) => if i == j then 1.0 else 0.0

  ghost predicate Same(rows: nat, cols: nat, P: Mat, Q: Mat) {
    forall i, j :: 0 <= i < rows && 0 <= j < cols ==> P(i, j) == Q(i, j)
  }

  /** The symmetric matrix given by the lower triangle of A. */
  ghost function SymmetricFromLower(A: Mat): Mat {
    (i: int, j: int) => if j <= i then A(i, j) else A(j, i)
  }

  ghost function Dot(n: nat, u: int -> real, v: int -> real): real {
    Sum(0, n, (k: int) => u(k) * v(k))
  }

  lemma {:induction false} ProductAssoc(a: nat, b: nat, P: Mat, Q: Mat, R: Mat, i: int, j: int)
    ensures Product(b, Product(a, P, Q), R)(i, j) == Product(a, P, Product(b, Q, R))(i, j)
  {
    var F: Mat := (l: int, k: int) => P(i, k) * Q(k, l) * R(l, j);
    var left := (l: int) => Product(a, P, Q)(i, l) * R(l, j);
    var right := (k: int) => P(i, k) * Product(b, Q, R)(k, j);
    forall l | 0 <= l < b
      ensures left(l) == Sum(0, a, (k: int) => F(l, k))
    {
      var inner := (k: int) => P(i, k) * Q(k, l);
      SumScale(0, a, R(l, j), inner, (k: int) => F(l, k));
    }
    forall k | 0 <= k < a
      ensures right(k) == Sum(0, b, (l: int) => F(l, k))
    {
      var inner := (l: int) => Q(k, l) * R(l, j);
      SumScale(0, b, P(i, k), inner, (l: int) => F(l, k));
    }
    SumSwap(0, b, 0, a, F, left, right);
    assert Product(b, Product(a, P, Q), R)(i, j) == Sum(0, b, left);
    assert Product(a, P, Product(b, Q, R))(i, j) == Sum(0, a, right);
  }

  lemma ProductCongLeft(n: nat, P: Mat, P': Mat, Q: Mat, i: int, j: int)
    requires forall k :: 0 <= k < n ==> P(i, k) == P'(i, k)
    ensures Product(n, P, Q)(i, j) == Product(n, P', Q)(i, j)
  {
    SumCong(0, n, (k: int) => P(i, k) * Q(k, j), (k: int) => P'(i, k) * Q(k, j));
  }

  lemma ProductCongRight(n: nat, P: Mat, Q: Mat, Q': Mat, i: int, j: int)
    requires forall k :: 0 <= k < n ==> Q(k, j) == Q'(k, j)
    ensures Product(n, P, Q)(i, j) == Product(n, P, Q')(i, j)
  {
    SumCong(0, n, (k: int) => P(i, k) * Q(k, j), (k: int) => P(i, k) * Q'(k, j));
  }

  // Dot products as a bilinear form. The vectors are named functions, related pointwise.

  ghost function Row(M: Mat, i: int): int -> real {
    (j: int) => M(i, j)
  }

  ghost function Column(M: Mat, j: int): int -> real {
    (i: int) => M(i, j)
  }

  /** M * w over inner dimension n. */
  ghost function Apply(n: nat, M: Mat, w: int -> real): int -> real {
    (i: int) => Dot(n, w, Row(M, i))
  }

  lemma ProductIsDot(n: nat, P: Mat, Q: Mat, i: int, j: int)
    ensures Product(n, P, Q)(i, j) == Dot(n, Row(P, i), Column(Q, j))
  {
    var f, r, c := (k: int) => P(i, k) * Q(k, j), Row(P, i), Column(Q, j);
    forall k | 0 <= k < n
      ensures f(k) == r(k) * c(k)
    {
      assert r(k) == P(i, k) && c(k) == Q(k, j);
    }
    SumCong(0, n, f, (k: int) => r(k) * c(k));
  }

  lemma DotCommutes(n: nat, u: int -> real, w: int -> real)
    ensures Dot(n, u, w) == Dot(n, w, u)
  {
    SumCong(0, n, (k: int) => u(k) * w(k), (k: int) => w(k) * u(k));
  }

  lemma DotCong(n: nat, u: int -> real, w: int -> real, w': int -> real)
    requires forall k :: 0 <= k < n ==> w(k) == w'(k)
    ensures Dot(n, u, w) == Dot(n, u, w')
  {
    SumCong(0, n, (k: int) => u(k) * w(k), (k: int) => u(k) * w'(k));
  }

  lemma DotSum(n: nat, u: int -> real, w: int -> real, f: int -> real)
    requires forall k :: 0 <= k < n ==> f(k) == u(k) * w(k)
    ensures Dot(n, u, w) == Sum(0, n, f)
  {
    SumCong(0, n, f, (k: int) => u(k) * w(k));
  }

  lemma DotZero(n: nat, u: int -> real, w: int -> real)
    requires forall k :: 0 <= k < n ==> u(k) == 0.0 || w(k) == 0.0
    ensures Dot(n, u, w) == 0.0
  {
    SumZero(0, n, (k: int) => u(k) * w(k));
  }

  lemma DotSingle(n: nat, at: nat, u: int -> real, w: int -> real)
    requires at < n
    requires forall k :: 0 <= k < n && k != at ==> u(k) == 0.0 || w(k) == 0.0
    ensures Dot(n, u, w) == u(at) * w(at)
  {
    SumSingle(0, n, at, (k: int) => u(k) * w(k));
  }

  /** w = f + c * g pointwise. */
  lemma DotLinear(n: nat, u: int -> real, c: real, f: int -> real, g: int -> real, w: int -> real)
    requires forall k :: 0 <= k < n ==> w(k) == f(k) + c * g(k)
    ensures Dot(n, u, w) == Dot(n, u, f) + c * Dot(n, u, g)
  {
    var uf, ug, uw := (k: int) => u(k) * f(k), (k: int) => u(k) * g(k), (k: int) => u(k) * w(k);
    forall k | 0 <= k < n
      ensures uw(k) == uf(k) + c * ug(k)
    {
      LinearTerm(u(k), f(k), c, g(k), w(k), uf(k), ug(k), uw(k));
    }
    hide Sum;
    SumLinear(0, n, c, uf, ug, uw);
  }

  lemma LinearTerm(u: real, f: real, c: real, g: real, w: real, uf: real, ug: real, uw: real)
    requires w == f + c * g && uf == u * f && ug == u * g && uw == u * w
    ensures uw == uf + c * ug
  {
    ProductOfSum(u, f, c, g);
  }

  lemma DotSquareNonNeg(n: nat, u: int -> real)
    ensures Dot(n, u, u) >= 0.0
    ensures forall k :: 0 <= k < n ==> u(k) * u(k) <= Dot(n, u, u)
  {
    var sq := (k: int) => u(k) * u(k);
    SumNonNeg(0, n, sq);
    forall k | 0 <= k < n
      ensures u(k) * u(k) <= Dot(n, u, u)
    {
      SumAtLeastTerm(0, n, k, sq);
      assert sq(k) == u(k) * u(k);
    }
  }

  /** The first m entries of u, then one further entry, then zeros. */
  lemma DotPrefix(n: nat, m: nat, u: int -> real, w: int -> real)
    requires m < n && forall k :: m < k < n ==> u(k) == 0.0
    ensures Dot(n, u, w) == Dot(m, u, w) + u(m) * w(m)
  {
    var term := (k: int) => u(k) * w(k);
    SumSplit(0, m, n, term);
    SumFirst(m, n, term);
    SumZero(m + 1, n, term);
  }

  /** u . (M * w). */
  ghost function Bilinear(n: nat, M: Mat, u: int -> real, w: int -> real): real {
    Dot(n, u, Apply(n, M, w))
  }

  ghost predicate PositiveSemidefinite(n: nat, M: Mat) {
    forall v: int -> real :: Bilinear(n, M, v, v) >= 0.0
  }

  ghost predicate Symmetric(A: Mat, n: nat) {
    forall i, j :: 0 <= i < n && 0 <= j < n ==> A(i, j) == A(j, i)
  }

  /** Against a unit vector: (u . w)^2 <= w . w */
  lemma UnitCauchySchwarz(n: nat, u: int -> real, w: int -> real)
    requires Dot(n, u, u) == 1.0
    ensures Dot(n, u, w) * Dot(n, u, w) <= Dot(n, w, w)
  {
    hide Dot;
    var y := Dot(n, u, w);
    var d := (k: int) => w(k) + (-y) * u(k);
    DotLinear(n, u, -y, w, u, d);
    DotLinear(n, w, -y, w, u, d);
    DotLinear(n, d, -y, w, u, d);
    DotCommutes(n, d, u);
    DotCommutes(n, d, w);
    DotCommutes(n, w, u);
    DotSquareNonNeg(n, d);
    assert Dot(n, d, u) == y + (-y) * 1.0 == 0.0;
    assert Dot(n, d, d) == Dot(n, d, w) + (-y) * 0.0;
  }

  /** The contents of a vector as a value. */
  ghost function Values(a: array<real>): (f: int -> real)
    reads a
    ensures forall k :: 0 <= k < a.Length ==> f(k) == a[k]
  {
    var s := a[..];
    (k: int) => if 0 <= k < |s| then s[k] else 0.0
  }

  lemma IdentityLeft(n: nat, I: Mat, P: Mat, i: int, j: int)
    requires Same(n, n, I, Identity) && 0 <= i < n
    ensures Product(n, I, P)(i, j) == P(i, j)
  {
    hide Dot, Product;
    ProductIsDot(n, I, P, i, j);
    DotSingle(n, i, Row(I, i), Column(P, j));
  }

  lemma IdentityRight(n: nat, P: Mat, I: Mat, i: int, j: int)
    requires Same(n, n, I, Identity) && 0 <= j < n
    ensures Product(n, P, I)(i, j) == P(i, j)
  {
    hide Dot, Product;
    ProductIsDot(n, P, I, i, j);
    DotSingle(n, j, Row(P, i), Column(I, j));
  }

  /** For a symmetric matrix, (M u) . w = u . (M w). */
  lemma SymmetricMovesAcross(n: nat, M: Mat, u: int -> real, w: int -> real)
    requires Symmetric(M, n)
    ensures Dot(n, Apply(n, M, u), w) == Dot(n, u, Apply(n, M, w))
  {
    hide Dot, Product, Apply;
    // u as a one-row matrix, w as a one-column matrix: (u M) w = u (M w)
    var U: Mat, W: Mat := (t: int, j: int) => u(j), (i: int, t: int) => w(i);
    ProductAssoc(n, n, U, M, W, 0, 0);
    ProductIsDot(n, Product(n, U, M), W, 0, 0);
    ProductIsDot(n, U, Product(n, M, W), 0, 0);
    forall k | 0 <= k < n
      ensures Row(Product(n, U, M), 0)(k) == Apply(n, M, u)(k)
      ensures Column(Product(n, M, W), 0)(k) == Apply(n, M, w)(k)
    {
      ProductIsDot(n, U, M, 0, k);
      ProductIsDot(n, M, W, k, 0);
      ApplyIsDot(n, M, u, k);
      ApplyIsDot(n, M, w, k);
      DotBothCong(n, Row(U, 0), Column(M, k), u, Row(M, k));
      DotCommutes(n, Row(M, k), Column(W, 0));
      DotBothCong(n, Column(W, 0), Row(M, k), w, Row(M, k));
    }
    DotBothCong(n, Row(Product(n, U, M), 0), Column(W, 0), Apply(n, M, u), w);
    DotBothCong(n, Row(U, 0), Column(Product(n, M, W), 0), u, Apply(n, M, w));
  }

  lemma ApplyIsDot(n: nat, M: Mat, w: int -> real, i: int)
    ensures Apply(n, M, w)(i) == Dot(n, w, Row(M, i))
  {
  }

  lemma DotBothCong(n: nat, u: int -> real, w: int -> real, u': int -> real, w': int -> real)
    requires forall k :: 0 <= k < n ==> u(k) == u'(k) && w(k) == w'(k)
    ensures Dot(n, u, w) == Dot(n, u', w')
  {
    SumCong(0, n, (k: int) => u(k) * w(k), (k: int) => u'(k) * w'(k));
  }

  /** M (M u) = u when M is its own inverse. */
  lemma InvolutionCancels(n: nat, M: Mat, u: int -> real, i: nat)
    requires Same(n, n, Product(n, M, M), Identity) && i < n
    ensures Apply(n, M, Apply(n, M, u))(i) == u(i)
  {
    hide Dot, Product;
    var column: Mat := (k: int, t: int) => u(k);
    var Mu := Product(n, M, column);
    forall k | 0 <= k < n
      ensures Column(Mu, 0)(k) == Apply(n, M, u)(k)
    {
      ProductIsDot(n, M, column, k, 0);
      DotCong(n, Row(M, k), Column(column, 0), u);
      DotCommutes(n, Row(M, k), u);
    }
    DotCommutes(n, Apply(n, M, u), Row(M, i));
    DotCong(n, Row(M, i), Apply(n, M, u), Column(Mu, 0));
    ProductIsDot(n, M, Mu, i, 0);
    ProductAssoc(n, n, M, M, column, i, 0);
    IdentityLeft(n, Product(n, M, M), column, i, 0);
  }
}
