/** Small facts about real products. Each product is passed under a name of its own, so that
    the solver never has to multiply anything out at a call site. */
module RealArith {

  lemma PositiveProduct(a: real, b: real, ab: real)
    requires a > 0.0 && b > 0.0 && ab == a * b
    ensures ab > 0.0
  {
  }

  lemma NegativeProduct(a: real, b: real, ab: real)
    requires a < 0.0 && b < 0.0 && ab == a * b
    ensures ab > 0.0
  {
  }

  lemma SquareSign(x: real, square: real)
    requires square == x * x
    ensures square >= 0.0
    ensures square > 0.0 <==> x != 0.0
  {
    if x > 0.0 {
      PositiveProduct(x, x, square);
    } else if x < 0.0 {
      NegativeProduct(x, x, square);
    }
  }

  lemma ScaleMono(c: real, a: real, b: real)
    requires c >= 0.0 && a <= b
    ensures c * a <= c * b
  {
  }

  lemma ZeroProduct(c: real, x: real)
    requires c > 0.0 && c * x == 0.0
    ensures x == 0.0
  {
  }

  lemma ProductOfSum(u: real, f: real, c: real, g: real)
    ensures u * (f + c * g) == u * f + c * (u * g)
  {
  }

  function Abs(x: real): real {
    if x < 0.0 then -x else x
  }

  function Max(a: real, b: real): real {
    if a >= b then a else b
  }

  lemma AbsOfProduct(x: real, d: real)
    ensures Abs(x * d) == Abs(x) * Abs(d)
  {
    if x >= 0.0 && d >= 0.0 {
      assert x * d >= 0.0;
    } else if x < 0.0 && d < 0.0 {
      NegativeProduct(x, d, x * d);
      assert x * d == (-x) * (-d);
    } else if x >= 0.0 {
      ScaleMono(x, d, 0.0);
      assert x * -d == -(x * d);
    } else {
      ScaleMono(d, x, 0.0);
      assert -x * d == -(x * d);
    }
  }

  /** |x d| <= X D from |x| <= X and |d| <= D. */
  lemma AbsProduct(x: real, d: real, X: real, D: real)
    requires Abs(x) <= X && Abs(d) <= D
    ensures Abs(x * d) <= X * D
  {
    AbsOfProduct(x, d);
    ScaleMono(Abs(x), Abs(d), D);
    ScaleMono(D, Abs(x), X);
  }

  /** A product the solver can be told not to look into. */
  function Times(a: real, b: real): real {
    a * b
  }

  /** Scaling by a positive factor keeps the order and nothing else. */
  lemma ScaledOrder(t: real, a: real, b: real)
    requires t > 0.0
    ensures a < b <==> Times(t, a) < Times(t, b)
  {
    assert Times(t, b) - Times(t, a) == t * (b - a);
    if a < b {
      PositiveProduct(t, b - a, t * (b - a));
    } else {
      ScaleMono(t, b - a, 0.0);
    }
  }

  lemma QuotientOf(c: real, t: real, s: real)
    requires t > 0.0 && c == Times(t, s)
    ensures s == c / t
  {
    var q := c / t;
    assert t * q == c;
    assert t * (s - q) == 0.0;
    ZeroProduct(t, s - q);
  }

  /** How a quotient compares. */
  lemma QuotientOrder(x: real, u: real, k: real)
    requires u > 0.0
    ensures x / u < k <==> x < Times(u, k)
  {
    var r := x / u;
    assert Times(u, r) == x;
    hide Times;
    ScaledOrder(u, r, k);
  }
}
