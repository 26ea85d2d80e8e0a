/** Plane rotations of a symmetric matrix: what one Jacobi step does to the matrix, to the
    accumulated eigenvectors and to the off-diagonal mass. */
module JacobiTheory {
  import opened Matrices
  import opened RealArith
  import opened Sums

  // ---------------------------------------------------------------- rotations

  /** P * J for the rotation J in the plane (p, q). */
  ghost function RotateColumns(P: Mat, p: int, q: int, c: real, s: real): Mat {
    (i: int, j: int) => if j == p then c * P(i, p) - s * P(i, q)
                        else if j == q then s * P(i, p) + c * P(i, q)
                        else P(i, j)
  }

  /** J^T * P. */
  ghost function RotateRows(P: Mat, p: int, q: int, c: real, s: real): Mat {
    (i: int, j: int) => if i == p then c * P(p, j) - s * P(q, j)
                        else if i == q then s * P(p, j) + c * P(q, j)
                        else P(i, j)
  }

  ghost predicate IsRotation(n: nat, p: int, q: int, c: real, s: real) {
    0 <= p < q < n && c * c + s * s == 1.0
  }

  /** The inverse rotation recovers the pair. */
  lemma RotateBack(x: real, y: real, c: real, s: real, x': real, y': real)
    requires c * c + s * s == 1.0
    requires x' == c * x - s * y && y' == s * x + c * y
    ensures c * x' + s * y' == x && c * y' - s * x' == y
  {
    assert c * x' + s * y' == (c * c + s * s) * x;
    assert c * y' - s * x' == (c * c + s * s) * y;
  }

  /** Rotating both pairs keeps a x + b y. */
  lemma RotatedPair(a: real, b: real, x: real, y: real, c: real, s: real, a': real, b': real, x': real, y': real)
    requires c * c + s * s == 1.0
    requires a' == c * a - s * b && b' == s * a + c * b
    requires x' == c * x - s * y && y' == s * x + c * y
    ensures a' * x' + b' * y' == a * x + b * y
  {
    RotateBack(x, y, c, s, x', y');
    var x0, y0 := c * x' + s * y', c * y' - s * x';
    assert a' * x' == c * (a * x') - s * (b * x');
    assert b' * y' == s * (a * y') + c * (b * y');
    assert a * x0 == c * (a * x') + s * (a * y');
    assert b * y0 == c * (b * y') - s * (b * x');
  }

  /** Two sequences of summands that differ only at p and q, with the same total there. */
  lemma SumPair(n: nat, p: nat, q: nat, f: int -> real, g: int -> real, delta: real)
    requires p < q < n
    requires forall k :: 0 <= k < n && k != p && k != q ==> f(k) == g(k)
    requires g(p) + g(q) == f(p) + f(q) + delta
    ensures Sum(0, n, g) == Sum(0, n, f) + delta
  {
    var h := (k: int) => if k == p then g(p) else f(k);
    SumUpdate(0, n, p, f, h);
    SumUpdate(0, n, q, h, g);
  }

  /** (P J)(J^T Q) = P Q. */
  lemma RotationCancels(n: nat, P: Mat, Q: Mat, p: int, q: int, c: real, s: real, i: int, j: int)
    requires IsRotation(n, p, q, c, s)
    ensures Product(n, RotateColumns(P, p, q, c, s), RotateRows(Q, p, q, c, s))(i, j) == Product(n, P, Q)(i, j)
  {
    hide Sum;
    var P', Q' := RotateColumns(P, p, q, c, s), RotateRows(Q, p, q, c, s);
    var f, g := (k: int) => P(i, k) * Q(k, j), (k: int) => P'(i, k) * Q'(k, j);
    SummandTimes(P, Q, i, j, f);
    SummandTimes(P', Q', i, j, g);
    hide IsSummand, RotateColumns, RotateRows;
    RotatedTerms(n, P, Q, P', Q', p, q, c, s, i, j, f, g);
    SumPair(n, p, q, f, g, 0.0);
  }

  /** f(k) is the k-th summand of entry (i, j) of P Q. */
  ghost predicate IsSummand(P: Mat, Q: Mat, i: int, j: int, f: int -> real) {
    forall k :: f(k) == Times(P(i, k), Q(k, j))
  }

  lemma SummandTimes(P: Mat, Q: Mat, i: int, j: int, f: int -> real)
    requires f == ((k: int) => P(i, k) * Q(k, j))
    ensures IsSummand(P, Q, i, j, f)
  {
  }

  lemma RotatedTerms(n: nat, P: Mat, Q: Mat, P': Mat, Q': Mat, p: int, q: int, c: real, s: real, i: int, j: int,
                     f: int -> real, g: int -> real)
    requires IsRotation(n, p, q, c, s)
    requires P' == RotateColumns(P, p, q, c, s) && Q' == RotateRows(Q, p, q, c, s)
    requires IsSummand(P, Q, i, j, f) && IsSummand(P', Q', i, j, g)
    ensures forall k :: 0 <= k < n && k != p && k != q ==> f(k) == g(k)
    ensures g(p) + g(q) == f(p) + f(q) + 0.0
  {
    RotatedEntries(P, Q, p, q, c, s, i, j);
    hide RotateColumns, RotateRows, Times;
    PairOfTerms(P(i, p), P(i, q), Q(p, j), Q(q, j), c, s, P'(i, p), P'(i, q), Q'(p, j), Q'(q, j));
  }

  lemma PairOfTerms(a: real, b: real, x: real, y: real, c: real, s: real, a': real, b': real, x': real, y': real)
    requires c * c + s * s == 1.0
    requires a' == Times(c, a) - Times(s, b) && b' == Times(s, a) + Times(c, b)
    requires x' == Times(c, x) - Times(s, y) && y' == Times(s, x) + Times(c, y)
    ensures Times(a', x') + Times(b', y') == Times(a, x) + Times(b, y)
  {
    RotatedPair(a, b, x, y, c, s, a', b', x', y');
  }

  lemma RotatedEntries(P: Mat, Q: Mat, p: int, q: int, c: real, s: real, i: int, j: int)
    requires p < q
    ensures var R := RotateColumns(P, p, q, c, s);
            && R(i, p) == Times(c, P(i, p)) - Times(s, P(i, q)) && R(i, q) == Times(s, P(i, p)) + Times(c, P(i, q))
            && forall k :: k != p && k != q ==> R(i, k) == P(i, k)
    ensures var R := RotateRows(Q, p, q, c, s);
            && R(p, j) == Times(c, Q(p, j)) - Times(s, Q(q, j)) && R(q, j) == Times(s, Q(p, j)) + Times(c, Q(q, j))
            && forall k :: k != p && k != q ==> R(k, j) == Q(k, j)
  {
  }

  lemma ProductRow(n: nat, P: Mat, a: real, Q: Mat, i: int, i': int, j: int, b: real, R: Mat, r: int)
    requires forall k :: 0 <= k < n ==> R(r, k) == a * P(i, k) + b * P(i', k)
    ensures Product(n, R, Q)(r, j) == a * Product(n, P, Q)(i, j) + b * Product(n, P, Q)(i', j)
  {
    hide Sum;
    var x, y, z := (k: int) => P(i, k) * Q(k, j), (k: int) => P(i', k) * Q(k, j), (k: int) => R(r, k) * Q(k, j);
    var ax := (k: int) => a * x(k);
    forall k | 0 <= k < n
      ensures z(k) == ax(k) + b * y(k)
    {
      Distribute(a, P(i, k), b, P(i', k), Q(k, j));
    }
    SumScale(0, n, a, x, ax);
    SumLinear(0, n, b, ax, y, z);
  }

  lemma Distribute(a: real, x: real, b: real, y: real, z: real)
    ensures (a * x + b * y) * z == a * (x * z) + b * (y * z)
  {
  }

  /** (J^T P) Q = J^T (P Q). */
  lemma RotateRowsOfProduct(n: nat, P: Mat, Q: Mat, p: int, q: int, c: real, s: real, i: int, j: int)
    ensures Product(n, RotateRows(P, p, q, c, s), Q)(i, j) == RotateRows(Product(n, P, Q), p, q, c, s)(i, j)
  {
    hide Product;
    var P' := RotateRows(P, p, q, c, s);
    if i == p {
      ProductRow(n, P, c, Q, p, q, j, -s, P', i);
    } else if i == q {
      ProductRow(n, P, s, Q, p, q, j, c, P', i);
    } else {
      ProductCongLeft(n, P', P, Q, i, j);
    }
  }

  /** P (Q J) = (P Q) J. */
  lemma RotateColumnsOfProduct(n: nat, P: Mat, Q: Mat, p: int, q: int, c: real, s: real, i: int, j: int)
    ensures Product(n, P, RotateColumns(Q, p, q, c, s))(i, j) == RotateColumns(Product(n, P, Q), p, q, c, s)(i, j)
  {
    hide Product;
    var Q' := RotateColumns(Q, p, q, c, s);
    TransposeProduct(n, P, Q', i, j);
    TransposeProduct(n, P, Q, i, j);
    TransposeProduct(n, P, Q, i, p);
    TransposeProduct(n, P, Q, i, q);
    RotateRowsOfProduct(n, Transpose(Q), Transpose(P), p, q, c, s, j, i);
    ProductCongLeft(n, Transpose(Q'), RotateRows(Transpose(Q), p, q, c, s), Transpose(P), j, i);
  }

  lemma TransposeProduct(n: nat, P: Mat, Q: Mat, i: int, j: int)
    ensures Product(n, P, Q)(i, j) == Product(n, Transpose(Q), Transpose(P))(j, i)
  {
    hide Dot, Product;
    ProductIsDot(n, P, Q, i, j);
    DotCommutes(n, Row(P, i), Column(Q, j));
    ProductIsDot(n, Transpose(Q), Transpose(P), j, i);
    DotCong(n, Column(Q, j), Row(P, i), Column(Transpose(P), i));
    DotCommutes(n, Column(Q, j), Column(Transpose(P), i));
    DotCong(n, Column(Transpose(P), i), Column(Q, j), Row(Transpose(Q), j));
    DotCommutes(n, Column(Transpose(P), i), Row(Transpose(Q), j));
  }

  // ---------------------------------------------------------------- eigenvector invariants

  /** V V^T = I and V^T V = I. */
  ghost predicate Orthogonal(n: nat, V: Mat) {
    && Same(n, n, Product(n, V, Transpose(V)), Identity)
    && Same(n, n, Product(n, Transpose(V), V), Identity)
  }

  /** V^T * A0 * V. */
  ghost function Conjugate(n: nat, A0: Mat, V: Mat): Mat {
    Product(n, Transpose(V), Product(n, A0, V))
  }

  lemma IdentityOrthogonal(n: nat, V: Mat)
    requires Same(n, n, V, Identity)
    ensures Orthogonal(n, V)
  {
    hide Dot, Product;
    forall i, j | 0 <= i < n && 0 <= j < n
      ensures Product(n, V, Transpose(V))(i, j) == Identity(i, j)
      ensures Product(n, Transpose(V), V)(i, j) == Identity(i, j)
    {
      ProductIsDot(n, V, Transpose(V), i, j);
      DotSingle(n, i, Row(V, i), Column(Transpose(V), j));
      ProductIsDot(n, Transpose(V), V, i, j);
      DotSingle(n, i, Row(Transpose(V), i), Column(V, j));
    }
  }

  lemma IdentityConjugate(n: nat, A0: Mat, V: Mat)
    requires Same(n, n, V, Identity)
    ensures Same(n, n, Conjugate(n, A0, V), A0)
  {
    hide Dot, Product;
    forall i, j | 0 <= i < n && 0 <= j < n
      ensures Conjugate(n, A0, V)(i, j) == A0(i, j)
    {
      ProductIsDot(n, Transpose(V), Product(n, A0, V), i, j);
      DotSingle(n, i, Row(Transpose(V), i), Column(Product(n, A0, V), j));
      ProductIsDot(n, A0, V, i, j);
      DotSingle(n, j, Row(A0, i), Column(V, j));
    }
  }

  /** A rotation leaves the identity in place: J^T I J = I. */
  lemma RotatedIdentity(n: nat, p: int, q: int, c: real, s: real, i: int, j: int)
    requires IsRotation(n, p, q, c, s)
    ensures RotateRows(RotateColumns(Identity, p, q, c, s), p, q, c, s)(i, j) == Identity(i, j)
  {
    var B := RotateColumns(Identity, p, q, c, s);
    if j == p {
      assert B(p, j) == c && B(q, j) == -s;
      assert c * c - s * -s == 1.0 && s * c + c * -s == 0.0;
    } else if j == q {
      assert B(p, j) == s && B(q, j) == c;
      assert c * s - s * c == 0.0;
    } else {
      assert B(p, j) == 0.0 && B(q, j) == 0.0;
    }
  }

  lemma RotateCong(n: nat, P: Mat, Q: Mat, p: int, q: int, c: real, s: real)
    requires 0 <= p < n && 0 <= q < n && Same(n, n, P, Q)
    ensures Same(n, n, RotateRows(P, p, q, c, s), RotateRows(Q, p, q, c, s))
    ensures Same(n, n, RotateColumns(P, p, q, c, s), RotateColumns(Q, p, q, c, s))
  {
  }

  /** One rotation of the columns of V keeps V orthogonal. */
  lemma RotationKeepsOrthogonal(n: nat, V: Mat, p: int, q: int, c: real, s: real, V': Mat)
    requires IsRotation(n, p, q, c, s) && Orthogonal(n, V)
    requires Same(n, n, V', RotateColumns(V, p, q, c, s))
    ensures Orthogonal(n, V')
  {
    hide Product, RotateRows, RotateColumns;
    var R := RotateColumns(V, p, q, c, s);
    forall i, j | 0 <= i < n && 0 <= j < n
      ensures Product(n, V', Transpose(V'))(i, j) == Identity(i, j)
    {
      ProductCongLeft(n, V', R, Transpose(V'), i, j);
      ProductCongRight(n, R, Transpose(V'), RotateRows(Transpose(V), p, q, c, s), i, j) by {
        TransposedRotation(n, V, p, q, c, s, V');
      }
      RotationCancels(n, V, Transpose(V), p, q, c, s, i, j);
    }
    ConjugateRotates(n, Identity, V, p, q, c, s, V');
    var G, G' := Product(n, Transpose(V), V), Product(n, Transpose(V'), V');
    forall i, j | 0 <= i < n && 0 <= j < n
      ensures G'(i, j) == Identity(i, j)
    {
      IdentityProduct(n, V, i, j);
      IdentityProduct(n, V', i, j);
      forall a, b | 0 <= a < n && 0 <= b < n
        ensures Conjugate(n, Identity, V)(a, b) == Identity(a, b)
      {
        IdentityProduct(n, V, a, b);
      }
      RotateCong(n, Conjugate(n, Identity, V), Identity, p, q, c, s);
      RotateCong(n, RotateColumns(Conjugate(n, Identity, V), p, q, c, s), RotateColumns(Identity, p, q, c, s), p, q, c, s);
      RotatedIdentity(n, p, q, c, s, i, j);
    }
  }

  lemma TransposedRotation(n: nat, V: Mat, p: int, q: int, c: real, s: real, V': Mat)
    requires Same(n, n, V', RotateColumns(V, p, q, c, s))
    ensures Same(n, n, Transpose(V'), RotateRows(Transpose(V), p, q, c, s))
  {
  }

  /** V^T I V = V^T V. */
  lemma IdentityProduct(n: nat, V: Mat, i: int, j: int)
    ensures Conjugate(n, Identity, V)(i, j) == Product(n, Transpose(V), V)(i, j)
  {
    hide Dot, Product;
    forall k | 0 <= k < n
      ensures Product(n, Identity, V)(k, j) == V(k, j)
    {
      ProductIsDot(n, Identity, V, k, j);
      DotSingle(n, k, Row(Identity, k), Column(V, j));
    }
    ProductCongRight(n, Transpose(V), Product(n, Identity, V), V, i, j);
  }

  /** (V J)^T A0 (V J) = J^T (V^T A0 V) J. */
  lemma ConjugateRotates(n: nat, A0: Mat, V: Mat, p: int, q: int, c: real, s: real, V': Mat)
    requires 0 <= p < n && 0 <= q < n
    requires Same(n, n, V', RotateColumns(V, p, q, c, s))
    ensures Same(n, n, Conjugate(n, A0, V'),
                 RotateRows(RotateColumns(Conjugate(n, A0, V), p, q, c, s), p, q, c, s))
  {
    hide Product, RotateRows, RotateColumns;
    var R, Rt := RotateColumns(V, p, q, c, s), RotateRows(Transpose(V), p, q, c, s);
    var AV, AV' := Product(n, A0, V), Product(n, A0, V');
    var left := Product(n, Transpose(V), AV');
    TransposedRotation(n, V, p, q, c, s, V');
    forall i, j | 0 <= i < n && 0 <= j < n
      ensures AV'(i, j) == RotateColumns(AV, p, q, c, s)(i, j)
    {
      ProductCongRight(n, A0, V', R, i, j);
      RotateColumnsOfProduct(n, A0, V, p, q, c, s, i, j);
    }
    forall i, j | 0 <= i < n && 0 <= j < n
      ensures left(i, j) == RotateColumns(Conjugate(n, A0, V), p, q, c, s)(i, j)
    {
      ProductCongRight(n, Transpose(V), AV', RotateColumns(AV, p, q, c, s), i, j);
      RotateColumnsOfProduct(n, Transpose(V), AV, p, q, c, s, i, j);
    }
    RotateCong(n, left, RotateColumns(Conjugate(n, A0, V), p, q, c, s), p, q, c, s);
    forall i, j | 0 <= i < n && 0 <= j < n
      ensures Conjugate(n, A0, V')(i, j) == RotateRows(left, p, q, c, s)(i, j)
    {
      ProductCongLeft(n, Transpose(V'), Rt, AV', i, j);
      RotateRowsOfProduct(n, Transpose(V), AV', p, q, c, s, i, j);
    }
  }

  // ---------------------------------------------------------------- one step of the solver

  /** What the solver writes into the matrix when it rotates in the plane (p, q) with tangent t. */
  ghost function Step(A: Mat, p: int, q: int, t: real, c: real, s: real): Mat {
    (i: int, j: int) =>
      if i == p && j == p then A(p, p) - t * A(p, q)
      else if i == q && j == q then A(q, q) + t * A(p, q)
      else if (i == p && j == q) || (i == q && j == p) then 0.0
      else if j == p then c * A(i, p) - s * A(i, q)
      else if j == q then s * A(i, p) + c * A(i, q)
      else if i == p then c * A(j, p) - s * A(j, q)
      else if i == q then s * A(j, p) + c * A(j, q)
      else A(i, j)
  }

  /** The tangent the solver chooses from tau = (aqq - app) / (2 apq). */
  function Tangent(tau: real, sqrt: real -> real): real {
    if tau > 1000000000000000.0 || tau < -1000000000000000.0 then 1.0 / (2.0 * tau)
    else
      var magnitude := if tau >= 0.0 then tau else -tau;
      var denominator := magnitude + sqrt(1.0 + tau * tau);
      if denominator == 0.0 then 0.0 else (if tau >= 0.0 then 1.0 else -1.0) / denominator
  }

  ghost predicate SmallAngleBranch(tau: real) {
    tau > 1000000000000000.0 || tau < -1000000000000000.0
  }

  /** The equation that makes a rotation annihilate entry (p, q). */
  ghost predicate Annihilates(tau: real, t: real) {
    t * t + 2.0 * tau * t == 1.0
  }

  /** The tangent solves the annihilation equation exactly off the small-angle branch, and never on it. */
  lemma TangentAnnihilates(tau: real, sqrt: real -> real)
    requires IsSqrt(sqrt)
    ensures Annihilates(tau, Tangent(tau, sqrt)) <==> !SmallAngleBranch(tau)
  {
    var t := Tangent(tau, sqrt);
    if SmallAngleBranch(tau) {
      assert 2.0 * tau * t == 1.0;
      SquareSign(t, t * t);
    } else {
      var u := if tau >= 0.0 then tau else -tau;
      var sign := if tau >= 0.0 then 1.0 else -1.0;
      var square := tau * tau;
      SquareSign(tau, square);
      var w := sqrt(1.0 + square);
      assert w > 0.0 && w * w == 1.0 + square;
      UnitOverSum(u, w, square, 1.0 / (u + w));
      assert t == sign * (1.0 / (u + w));
      var v := 1.0 / (u + w);
      assert t == if tau >= 0.0 then v else -v;
      assert t * t == v * v;
      assert tau * t == u * v;
    }
  }

  lemma UnitOverSum(u: real, w: real, square: real, v: real)
    requires u >= 0.0 && w > 0.0 && w * w == 1.0 + square && square == u * u && v == 1.0 / (u + w)
    ensures v * v + 2.0 * (u * v) == 1.0
  {
    var d := u + w;
    assert v * d == 1.0;
    var x := v * v + 2.0 * (u * v);
    // (v^2 + 2uv) d^2 = 1 + 2ud = 1 + 2u^2 + 2uw = d^2
    assert d * d == u * u + 2.0 * (u * w) + w * w;
    assert (v * v) * (d * d) == (v * d) * (v * d);
    assert (u * v) * (d * d) == (u * d) * (v * d);
    assert x * (d * d) == 1.0 + 2.0 * (u * d);
    assert u * d == u * u + u * w;
    var D := d * d;
    PositiveProduct(d, d, D);
    assert x * D == D;
    assert (x - 1.0) * D == 0.0;
    ZeroProduct(D, x - 1.0);
  }

  /** The tangent has the sign of tau and turns by at most 45 degrees: of the two roots it is the small one. */
  lemma TangentIsSmall(tau: real, sqrt: real -> real)
    requires IsSqrt(sqrt)
    ensures -1.0 <= Tangent(tau, sqrt) <= 1.0
    ensures (tau > 0.0 ==> Tangent(tau, sqrt) > 0.0) && (tau < 0.0 ==> Tangent(tau, sqrt) < 0.0)
    ensures tau == 0.0 ==> Tangent(tau, sqrt) == 1.0
    ensures SmallAngleBranch(tau) ==> 2.0 * (tau * Tangent(tau, sqrt)) == 1.0
  {
    var t := Tangent(tau, sqrt);
    if SmallAngleBranch(tau) {
      assert t == 1.0 / (2.0 * tau);
      UnitFraction(if tau > 0.0 then 2.0 * tau else -(2.0 * tau));
    } else {
      var u, square := if tau >= 0.0 then tau else -tau, tau * tau;
      SquareSign(tau, square);
      var w := sqrt(1.0 + square);
      RootAboveOne(w, square);
      UnitFraction(u + w);
    }
  }

  lemma RootAboveOne(w: real, square: real)
    requires w >= 0.0 && w * w == 1.0 + square && square >= 0.0
    ensures w >= 1.0 && (square == 0.0 ==> w == 1.0)
  {
    if w < 1.0 {
      ScaleMono(w, w, 1.0);
    }
    if square == 0.0 && w > 1.0 {
      PositiveProduct(w, w - 1.0, w * (w - 1.0));
    }
  }

  lemma UnitFraction(d: real)
    requires d >= 1.0
    ensures 0.0 < 1.0 / d <= 1.0 && 1.0 / -d == -(1.0 / d)
  {
    var v := 1.0 / d;
    assert d * v == 1.0;
    if v > 1.0 {
      ScaleMono(d, 1.0, v);
    }
  }

  /** The diagonal after a turn in the plane (p, q): no entry moves further than the entry removed, unequal
      entries of the plane move apart, equal ones by exactly that entry. */
  ghost predicate Spread(n: nat, A: Mat, A': Mat, p: int, q: int) {
    && (forall i :: 0 <= i < n ==> Abs(A'(i, i) - A(i, i)) <= Abs(A(p, q)))
    && (A(p, p) < A(q, q) ==> A'(p, p) <= A(p, p) && A(q, q) <= A'(q, q))
    && (A(q, q) < A(p, p) ==> A'(q, q) <= A(q, q) && A(p, p) <= A'(p, p))
    && (A(p, p) == A(q, q) && A'(p, q) != A(p, q) ==> A'(p, p) == A(p, p) - A(p, q) && A'(q, q) == A(q, q) + A(p, q))
  }

  lemma StepSpreads(n: nat, A: Mat, p: int, q: int, tau: real, t: real, c: real, s: real, A': Mat)
    requires 0 <= p < q < n && A(p, q) != 0.0 && A(q, q) - A(p, p) == 2.0 * (tau * A(p, q))
    requires -1.0 <= t <= 1.0 && (tau > 0.0 ==> t > 0.0) && (tau < 0.0 ==> t < 0.0) && (tau == 0.0 ==> t == 1.0)
    requires Same(n, n, A', Step(A, p, q, t, c, s))
    ensures Spread(n, A, A', p, q)
    ensures A(p, p) < A(q, q) ==> A'(p, p) < A(p, p) && A(q, q) < A'(q, q)
    ensures A(q, q) < A(p, p) ==> A'(q, q) < A(q, q) && A(p, p) < A'(p, p)
  {
    var move := Times(t, A(p, q));
    StepDiagonal(A, p, q, t, c, s);
    hide Step;
    TurnSign(A(p, p), A(q, q), A(p, q), tau, t, move);
    hide Times;
  }

  lemma StepDiagonal(A: Mat, p: int, q: int, t: real, c: real, s: real)
    requires p != q
    ensures var A' := Step(A, p, q, t, c, s);
            && A'(p, p) == A(p, p) - Times(t, A(p, q)) && A'(q, q) == A(q, q) + Times(t, A(p, q))
            && A'(p, q) == 0.0 && forall i :: i != p && i != q ==> A'(i, i) == A(i, i)
  {
  }

  /** t apq has the sign of aqq - app. */
  lemma TurnSign(app: real, aqq: real, apq: real, tau: real, t: real, move: real)
    requires apq != 0.0 && aqq - app == 2.0 * (tau * apq) && move == t * apq
    requires -1.0 <= t <= 1.0 && (tau > 0.0 ==> t > 0.0) && (tau < 0.0 ==> t < 0.0) && (tau == 0.0 ==> t == 1.0)
    ensures Abs(move) <= Abs(apq)
    ensures (app < aqq ==> move > 0.0) && (aqq < app ==> move < 0.0) && (app == aqq ==> move == apq)
  {
    SameSigns(tau, t, apq, tau * apq, move);
    AbsProduct(t, apq, 1.0, Abs(apq));
  }

  lemma SameSigns(tau: real, t: real, b: real, taub: real, tb: real)
    requires b != 0.0 && taub == tau * b && tb == t * b
    requires (tau > 0.0 ==> t > 0.0) && (tau < 0.0 ==> t < 0.0)
    ensures (taub > 0.0 ==> tb > 0.0) && (taub < 0.0 ==> tb < 0.0) && (taub == 0.0 ==> tau == 0.0)
  {
    if tau > 0.0 {
      ProductSign(tau, b, taub);
      ProductSign(t, b, tb);
    } else if tau < 0.0 {
      ProductSign(-tau, b, -taub);
      ProductSign(-t, b, -tb);
    }
  }

  lemma ProductSign(a: real, b: real, ab: real)
    requires a > 0.0 && b != 0.0 && ab == a * b
    ensures ab > 0.0 <==> b > 0.0
    ensures ab < 0.0 <==> b < 0.0
  {
    if b > 0.0 {
      PositiveProduct(a, b, ab);
    } else {
      PositiveProduct(a, -b, -ab);
    }
  }

  /** c = 1 / sqrt(1 + t^2), s = t c form a rotation for every tangent. */
  lemma CosineSine(t: real, r: real, c: real, s: real)
    requires r > 0.0 && r * r == 1.0 + t * t && c == 1.0 / r && s == t * c
    ensures c * c + s * s == 1.0 && c > 0.0
  {
    assert c * r == 1.0;
    assert (c * c) * (r * r) == (c * r) * (c * r);
    assert s * s == (t * t) * (c * c);
    assert (c * c) * (1.0 + t * t) == c * c + (c * c) * (t * t);
  }

  lemma StepSymmetric(n: nat, A: Mat, p: int, q: int, t: real, c: real, s: real)
    requires 0 <= p < q < n && Symmetric(A, n)
    ensures Symmetric(Step(A, p, q, t, c, s), n)
  {
  }

  ghost function Trace(A: Mat, n: nat): real {
    Sum(0, n, (k: int) => A(k, k))
  }

  lemma StepTrace(n: nat, A: Mat, p: int, q: int, t: real, c: real, s: real)
    requires 0 <= p < q < n
    ensures Trace(Step(A, p, q, t, c, s), n) == Trace(A, n)
  {
    var A' := Step(A, p, q, t, c, s);
    SumPair(n, p, q, (k: int) => A(k, k), (k: int) => A'(k, k), 0.0);
  }

  /** The entries of J^T A J in the plane, less what the solver writes there. All four differences
      are multiples of the same residual, which vanishes exactly when t annihilates (p, q). */
  lemma PlaneEntries(app: real, aqq: real, apq: real, tau: real, t: real, c: real, s: real, g: real, e: real)
    requires c * c + s * s == 1.0 && s == t * c && aqq == app + 2.0 * (tau * apq) && g == c * c
    requires e == apq - 2.0 * (tau * t * apq) - t * t * apq
    ensures c * (c * app - s * apq) - s * (c * apq - s * aqq) == app - t * apq - t * g * e
    ensures s * (s * app + c * apq) + c * (s * apq + c * aqq) == aqq + t * apq + t * g * e
    ensures c * (s * app + c * apq) - s * (s * apq + c * aqq) == g * e
    ensures s * (c * app - s * apq) + c * (c * apq - s * aqq) == g * e
  {
    var b := tau * apq;
    assert c * s == t * g;
    assert s * s == t * t * g;
    var h := t * t * g;
    assert g + h == 1.0;
    var k := t * g;
    assert g * e == g * apq - 2.0 * (k * b) - h * apq by {
      assert g * (tau * t * apq) == k * b;
      assert g * (t * t * apq) == h * apq;
    }
    assert c * (c * app - s * apq) == g * app - k * apq;
    assert s * (c * apq - s * aqq) == k * apq - h * aqq;
    assert s * (s * app + c * apq) == h * app + k * apq;
    assert c * (s * apq + c * aqq) == k * apq + g * aqq;
    assert c * (s * app + c * apq) == k * app + g * apq;
    assert s * (s * apq + c * aqq) == h * apq + k * aqq;
    assert s * (c * app - s * apq) == k * app - h * apq;
    assert c * (c * apq - s * aqq) == g * apq - k * aqq;
    assert k * aqq == k * app + 2.0 * (k * b);
    assert h * aqq == h * app + 2.0 * (h * b);
    assert g * aqq == g * app + 2.0 * (g * b);
    assert g * app + h * app == app;
    assert t * g * e == t * (g * e);
    assert t * (g * e) == t * (g * apq) - 2.0 * (t * (k * b)) - t * (h * apq);
    assert t * (k * b) == h * b;
    var m := t * apq;
    assert t * (g * apq) == g * m && t * (h * apq) == h * m && k * apq == g * m;
    assert g * m + h * m == m;
    assert g * b + h * b == b;
  }

  /** J^T A J agrees with what the solver writes exactly when the tangent annihilates (p, q). */
  lemma StepIsRotation(n: nat, A: Mat, p: int, q: int, tau: real, t: real, c: real, s: real)
    requires IsRotation(n, p, q, c, s) && s == t * c && c > 0.0 && Symmetric(A, n)
    requires A(p, q) != 0.0 && A(q, q) - A(p, p) == 2.0 * (tau * A(p, q))
    ensures Same(n, n, Step(A, p, q, t, c, s), RotateRows(RotateColumns(A, p, q, c, s), p, q, c, s))
            <==> Annihilates(tau, t)
  {
    hide Annihilates;
    var A' := Step(A, p, q, t, c, s);
    var R := RotateRows(RotateColumns(A, p, q, c, s), p, q, c, s);
    var apq, g := A(p, q), c * c;
    var e := apq - 2.0 * (tau * t * apq) - t * t * apq;
    StepInPlane(A, p, q, tau, t, c, s, g, e);
    forall i, j | 0 <= i < n && 0 <= j < n && !(i in {p, q} && j in {p, q})
      ensures A'(i, j) == R(i, j)
    {
    }
    Residual(apq, tau, t, e, g, c);
    assert A'(p, q) == 0.0;
    if Annihilates(tau, t) {
      assert g * e == 0.0 && t * g * e == 0.0;
    }
  }

  lemma StepInPlane(A: Mat, p: int, q: int, tau: real, t: real, c: real, s: real, g: real, e: real)
    requires p < q && c * c + s * s == 1.0 && s == t * c && g == c * c && A(p, q) == A(q, p)
    requires A(q, q) - A(p, p) == 2.0 * (tau * A(p, q))
    requires e == A(p, q) - 2.0 * (tau * t * A(p, q)) - t * t * A(p, q)
    ensures var A' := Step(A, p, q, t, c, s);
            var R := RotateRows(RotateColumns(A, p, q, c, s), p, q, c, s);
            && R(p, p) == A'(p, p) - t * g * e && R(q, q) == A'(q, q) + t * g * e
            && R(p, q) == g * e && R(q, p) == g * e
  {
    var app, aqq, apq := A(p, p), A(q, q), A(p, q);
    PlaneEntries(app, aqq, apq, tau, t, c, s, g, e);
    PlaneRotation(A, p, q, c, s, app, aqq, apq);
  }

  lemma PlaneRotation(A: Mat, p: int, q: int, c: real, s: real, app: real, aqq: real, apq: real)
    requires p < q && app == A(p, p) && aqq == A(q, q) && apq == A(p, q) == A(q, p)
    ensures var R := RotateRows(RotateColumns(A, p, q, c, s), p, q, c, s);
            && R(p, p) == c * (c * app - s * apq) - s * (c * apq - s * aqq)
            && R(q, q) == s * (s * app + c * apq) + c * (s * apq + c * aqq)
            && R(p, q) == c * (s * app + c * apq) - s * (s * apq + c * aqq)
            && R(q, p) == s * (c * app - s * apq) + c * (c * apq - s * aqq)
  {
  }

  lemma Residual(apq: real, tau: real, t: real, e: real, g: real, c: real)
    requires apq != 0.0 && e == apq - 2.0 * (tau * t * apq) - t * t * apq && g == c * c && c > 0.0
    ensures g * e == 0.0 <==> Annihilates(tau, t)
    ensures Annihilates(tau, t) ==> e == 0.0
  {
    var f := 1.0 - (t * t + 2.0 * tau * t);
    assert e == f * apq;
    PositiveProduct(c, c, g);
    if e != 0.0 {
      SquareSign(e, e * e);
      assert g * e * e == g * (e * e);
      PositiveProduct(g, e * e, g * (e * e));
    }
    if f != 0.0 {
      var F, P, E := f * f, apq * apq, e * e;
      SquareSign(f, F);
      SquareSign(apq, P);
      PositiveProduct(F, P, F * P);
      assert F * P == E;
      SquareSign(e, E);
    }
  }

  // ---------------------------------------------------------------- off-diagonal mass

  ghost function RowOff(A: Mat, n: nat, i: int): real {
    Sum(i + 1, n, (j: int) => A(i, j) * A(i, j))
  }

  ghost function RowsOff(A: Mat, n: nat, m: nat): real {
    Sum(0, m, (i: int) => RowOff(A, n, i))
  }

  /** Sum of the squares above the diagonal: the solver's convergence measure. */
  ghost function Off(A: Mat, n: nat): real {
    RowsOff(A, n, n)
  }

  /** Square of entry (i, j), zero on the diagonal. */
  ghost function OffSquare(A: Mat, i: int, j: int): real {
    if i == j then 0.0 else A(i, j) * A(i, j)
  }

  ghost function FullRowOff(A: Mat, n: nat, i: int): real {
    Sum(0, n, (j: int) => OffSquare(A, i, j))
  }

  ghost function FullOff(A: Mat, n: nat): real {
    Sum(0, n, (i: int) => FullRowOff(A, n, i))
  }

  /** Both triangles together weigh twice the upper one. */
  lemma FullOffIsTwice(A: Mat, n: nat)
    requires Symmetric(A, n)
    ensures FullOff(A, n) == 2.0 * Off(A, n)
  {
    hide OffSquare;
    var upper: Mat := (i: int, j: int) => if i < j then OffSquare(A, i, j) else 0.0;
    var lowerRow, upperRow := (i: int) => Sum(0, n, (j: int) => upper(j, i)), (i: int) => Sum(0, n, (j: int) => upper(i, j));
    forall i | 0 <= i < n
      ensures FullRowOff(A, n, i) == upperRow(i) + lowerRow(i)
    {
      UpperAndLower(A, n, upper, i);
    }
    SumAdd(0, n, upperRow, lowerRow, (i: int) => FullRowOff(A, n, i));
    SumSwap(0, n, 0, n, upper, upperRow, lowerRow);
    forall i | 0 <= i < n
      ensures upperRow(i) == RowOff(A, n, i)
    {
      UpperRow(A, n, upper, i);
    }
    SumCong(0, n, upperRow, (i: int) => RowOff(A, n, i));
  }

  lemma UpperAndLower(A: Mat, n: nat, upper: Mat, i: nat)
    requires Symmetric(A, n) && i < n
    requires forall a, b :: upper(a, b) == if a < b then OffSquare(A, a, b) else 0.0
    ensures FullRowOff(A, n, i) == Sum(0, n, (j: int) => upper(i, j)) + Sum(0, n, (j: int) => upper(j, i))
  {
    forall j | 0 <= j < n
      ensures OffSquare(A, i, j) == upper(i, j) + upper(j, i)
    {
      assert A(i, j) == A(j, i);
    }
    SumAdd(0, n, (j: int) => upper(i, j), (j: int) => upper(j, i), (j: int) => OffSquare(A, i, j));
  }

  lemma UpperRow(A: Mat, n: nat, upper: Mat, i: nat)
    requires i < n
    requires forall a, b :: upper(a, b) == if a < b then OffSquare(A, a, b) else 0.0
    ensures Sum(0, n, (j: int) => upper(i, j)) == RowOff(A, n, i)
  {
    var row := (j: int) => upper(i, j);
    SumSplit(0, i + 1, n, row);
    SumZero(0, i + 1, row);
    SumCong(i + 1, n, row, (j: int) => A(i, j) * A(i, j));
  }

  /** A row outside the plane keeps its mass. */
  lemma OtherRowKeepsMass(n: nat, A: Mat, p: int, q: int, t: real, c: real, s: real, r: nat)
    requires IsRotation(n, p, q, c, s) && r < n && r != p && r != q
    ensures FullRowOff(Step(A, p, q, t, c, s), n, r) == FullRowOff(A, n, r)
  {
    var A' := Step(A, p, q, t, c, s);
    var a, b, a', b' := A(r, p), A(r, q), A'(r, p), A'(r, q);
    RotatedPair(a, b, a, b, c, s, a', b', a', b');
    assert OffSquare(A', r, p) == a' * a' && OffSquare(A', r, q) == b' * b';
    assert OffSquare(A, r, p) == a * a && OffSquare(A, r, q) == b * b;
    SumPair(n, p, q, (j: int) => OffSquare(A, r, j), (j: int) => OffSquare(A', r, j), 0.0);
  }

  lemma PlaneRowsAt(n: nat, A: Mat, p: int, q: int, t: real, c: real, s: real, j: nat)
    requires IsRotation(n, p, q, c, s) && Symmetric(A, n) && j < n && j != p && j != q
    ensures var A' := Step(A, p, q, t, c, s);
            OffSquare(A, p, j) + OffSquare(A, q, j) == OffSquare(A', p, j) + OffSquare(A', q, j)
  {
    var A' := Step(A, p, q, t, c, s);
    var a, b, a', b' := A(j, p), A(j, q), A'(p, j), A'(q, j);
    RotatedPair(a, b, a, b, c, s, a', b', a', b');
    assert A(p, j) == a && A(q, j) == b;
    assert OffSquare(A', p, j) == a' * a' && OffSquare(A', q, j) == b' * b';
    assert OffSquare(A, p, j) == a * a && OffSquare(A, q, j) == b * b;
  }

  lemma PlaneCorner(A: Mat, p: int, q: int, t: real, c: real, s: real)
    requires p < q && A(p, q) == A(q, p)
    ensures var A' := Step(A, p, q, t, c, s);
            && OffSquare(A, p, p) + OffSquare(A, q, p) == A(p, q) * A(p, q)
            && OffSquare(A, p, q) + OffSquare(A, q, q) == A(p, q) * A(p, q)
            && OffSquare(A', p, p) + OffSquare(A', q, p) == 0.0
            && OffSquare(A', p, q) + OffSquare(A', q, q) == 0.0
  {
  }

  /** The two rows of the plane lose exactly the entry that was annihilated, on both sides. */
  lemma PlaneRowsLoseMass(n: nat, A: Mat, p: int, q: int, t: real, c: real, s: real)
    requires IsRotation(n, p, q, c, s) && Symmetric(A, n)
    ensures var A' := Step(A, p, q, t, c, s);
            FullRowOff(A', n, p) + FullRowOff(A', n, q)
            == FullRowOff(A, n, p) + FullRowOff(A, n, q) - 2.0 * (A(p, q) * A(p, q))
  {
    hide Step, OffSquare;
    var A' := Step(A, p, q, t, c, s);
    var m := A(p, q) * A(p, q);
    var fp, fq, f := (j: int) => OffSquare(A, p, j), (j: int) => OffSquare(A, q, j),
                     (j: int) => OffSquare(A, p, j) + OffSquare(A, q, j);
    var gp, gq, g := (j: int) => OffSquare(A', p, j), (j: int) => OffSquare(A', q, j),
                     (j: int) => OffSquare(A', p, j) + OffSquare(A', q, j);
    SumAdd(0, n, fp, fq, f);
    SumAdd(0, n, gp, gq, g);
    forall j | 0 <= j < n && j != p && j != q
      ensures f(j) == g(j)
    {
      PlaneRowsAt(n, A, p, q, t, c, s, j);
    }
    PlaneCorner(A, p, q, t, c, s);
    SumPair(n, p, q, f, g, -2.0 * m);
  }

  /** Each rotation lowers the off-diagonal mass by exactly the square of the entry it removes. */
  lemma StepLowersOff(n: nat, A: Mat, p: int, q: int, t: real, c: real, s: real)
    requires IsRotation(n, p, q, c, s) && Symmetric(A, n)
    ensures Off(Step(A, p, q, t, c, s), n) == Off(A, n) - A(p, q) * A(p, q)
  {
    hide Off, FullRowOff, Step;
    var A' := Step(A, p, q, t, c, s);
    var m := A(p, q) * A(p, q);
    forall r | 0 <= r < n && r != p && r != q
      ensures FullRowOff(A, n, r) == FullRowOff(A', n, r)
    {
      OtherRowKeepsMass(n, A, p, q, t, c, s, r);
    }
    PlaneRowsLoseMass(n, A, p, q, t, c, s);
    SumPair(n, p, q, (i: int) => FullRowOff(A, n, i), (i: int) => FullRowOff(A', n, i), -2.0 * m);
    StepSymmetric(n, A, p, q, t, c, s);
    FullOffIsTwice(A, n);
    FullOffIsTwice(A', n);
  }

  // ---------------------------------------------------------------- total mass

  function SquareEntry(A: Mat, k: int): real {
    A(k, k) * A(k, k)
  }

  ghost function DiagonalMass(A: Mat, n: nat): real {
    Sum(0, n, (k: int) => SquareEntry(A, k))
  }

  /** Sum of the squares of all entries of a symmetric matrix. */
  ghost function Mass(A: Mat, n: nat): real {
    DiagonalMass(A, n) + 2.0 * Off(A, n)
  }

  lemma PlaneDiagonal(x: real, y: real, a: real, tau: real, t: real, ta: real)
    requires y - x == 2.0 * (tau * a) && Annihilates(tau, t) && ta == t * a
    ensures (x - ta) * (x - ta) + (y + ta) * (y + ta) == x * x + y * y + 2.0 * (a * a)
  {
    var w, aa := tau * a, a * a;
    assert (x - ta) * (x - ta) + (y + ta) * (y + ta) == x * x + y * y + 2.0 * (ta * (y - x)) + 2.0 * (ta * ta);
    assert ta * (y - x) == 2.0 * (ta * w);
    assert ta * w == (t * tau) * aa;
    assert ta * ta == (t * t) * aa;
    assert 4.0 * ((t * tau) * aa) + 2.0 * ((t * t) * aa) == 2.0 * ((2.0 * (t * tau) + t * t) * aa);
  }

  /** An exact rotation keeps the total mass: what leaves the off-diagonal goes to the diagonal. */
  lemma StepKeepsMass(n: nat, A: Mat, p: int, q: int, tau: real, t: real, c: real, s: real)
    requires IsRotation(n, p, q, c, s) && Symmetric(A, n)
    requires A(q, q) - A(p, p) == 2.0 * (tau * A(p, q)) && Annihilates(tau, t)
    ensures Mass(Step(A, p, q, t, c, s), n) == Mass(A, n)
  {
    hide Off, Annihilates;
    var A' := Step(A, p, q, t, c, s);
    StepLowersOff(n, A, p, q, t, c, s);
    PlaneDiagonal(A(p, p), A(q, q), A(p, q), tau, t, t * A(p, q));
    SumPair(n, p, q, (k: int) => SquareEntry(A, k), (k: int) => SquareEntry(A', k), 2.0 * (A(p, q) * A(p, q)));
  }

  lemma OffNonNegative(A: Mat, n: nat)
    ensures Off(A, n) >= 0.0
  {
    forall i | 0 <= i < n
      ensures RowOff(A, n, i) >= 0.0
    {
      forall j | i + 1 <= j < n
        ensures A(i, j) * A(i, j) >= 0.0
      {
        SquareSign(A(i, j), A(i, j) * A(i, j));
      }
      SumNonNeg(i + 1, n, (j: int) => A(i, j) * A(i, j));
    }
    SumNonNeg(0, n, (i: int) => RowOff(A, n, i));
  }

  lemma TwoDiagonalEntries(A: Mat, n: nat, p: nat, q: nat)
    requires p < q < n
    ensures SquareEntry(A, p) + SquareEntry(A, q) <= DiagonalMass(A, n)
  {
    var f := (k: int) => SquareEntry(A, k);
    forall k | 0 <= k < n
      ensures f(k) >= 0.0
    {
      SquareSign(A(k, k), f(k));
    }
    SumSplit(0, q, n, f);
    SumAtLeastTerm(0, q, p, f);
    SumAtLeastTerm(q, n, q, f);
  }

  /** A matrix of total mass at most two never sends a visited entry into the small-angle branch. */
  lemma LightMatrixIsExact(n: nat, A: Mat, p: nat, q: nat, tau: real)
    requires p < q < n && Mass(A, n) <= 2.0
    requires !(-0.000000000000001 < A(p, q) < 0.000000000000001)
    requires A(q, q) - A(p, p) == 2.0 * (tau * A(p, q))
    ensures !SmallAngleBranch(tau)
  {
    hide Off, DiagonalMass;
    OffNonNegative(A, n);
    TwoDiagonalEntries(A, n, p, q);
    if SmallAngleBranch(tau) {
      LargeTau(A(p, p), A(q, q), A(p, q), tau, tau * A(p, q));
    }
  }

  lemma LargeTau(x: real, y: real, a: real, tau: real, w: real)
    requires SmallAngleBranch(tau) && !(-0.000000000000001 < a < 0.000000000000001)
    requires w == tau * a && y - x == 2.0 * w
    ensures x * x + y * y > 2.0
  {
    var T, e := if tau < 0.0 then -tau else tau, if a < 0.0 then -a else a;
    var W := T * e;
    assert W == w || W == -w;
    ScaleMono(T, 0.000000000000001, e);
    assert W > 1.0;
    var d := y - x;
    var D := if d < 0.0 then -d else d;
    assert D > 2.0;
    PositiveProduct(D - 2.0, D + 2.0, (D - 2.0) * (D + 2.0));
    assert (D - 2.0) * (D + 2.0) == d * d - 4.0;
    SquareSign(x + y, (x + y) * (x + y));
    assert d * d + (x + y) * (x + y) == 2.0 * (x * x + y * y);
  }
}
