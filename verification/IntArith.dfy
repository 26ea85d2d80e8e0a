/** Division facts for integers of any sign and a positive divisor. */
module IntArith {

  lemma DivModUnique(x: int, a: int, q: int, r: int)
    requires a > 0 && x == q * a + r && 0 <= r < a
    ensures x / a == q && x % a == r
  {
    var q', r' := x / a, x % a;
    assert x == q' * a + r';
    assert (q - q') * a == r' - r;
    if q - q' >= 1 {
      MulMono(1, q - q', a);
    } else if q - q' <= -1 {
      MulMono(q - q', -1, a);
    }
  }

  lemma MulMono(x: int, y: int, a: int)
    requires x <= y && a >= 0
    ensures x * a <= y * a
  {
  }

  lemma AddMultiple(x: int, j: int, a: int)
    requires a > 0
    ensures (x + j * a) / a == x / a + j
    ensures (x + j * a) % a == x % a
  {
    assert x + j * a == (x / a + j) * a + x % a;
    DivModUnique(x + j * a, a, x / a + j, x % a);
  }

  lemma DivDiv(x: int, a: int, b: int)
    requires a > 0 && b > 0
    ensures a * b > 0
    ensures x / (a * b) == (x / a) / b
    ensures x % (a * b) == (x / a) % b * a + x % a
  {
    var y, r := x / a, x % a;
    var q, k := y / b, y % b;
    MulPos(a, b);
    DigitsInRange(k, r, a, b);
    RegroupProduct(q, b, k, a);
    DivModUnique(x, a * b, q, k * a + r);
  }

  lemma RegroupProduct(q: int, b: int, k: int, a: int)
    ensures (q * b + k) * a == q * (a * b) + k * a
  {
  }

  /** A digit and a rest below the base. */
  lemma DigitsInRange(k: int, r: int, a: int, b: int)
    requires 0 <= k < b && 0 <= r < a
    ensures 0 <= k * a + r < b * a && b * a == a * b
  {
    MulMono(k, b - 1, a);
    MulMono(0, k, a);
    assert (b - 1) * a == b * a - a;
  }

  lemma QuotientBelow(x: int, a: int, b: int)
    requires a > 0 && 0 <= x < b * a
    ensures 0 <= x / a < b
  {
    var q := x / a;
    assert x == q * a + x % a;
    if q >= b {
      MulMono(b, q, a);
    } else if q <= -1 {
      MulMono(q, -1, a);
    }
  }

  lemma MulPos(a: int, b: int)
    requires a > 0 && b > 0
    ensures a * b > 0
  {
  }

  /** A product the solver can be told not to look into, with the laws it then needs. */
  function Mul(a: int, b: int): int {
    a * b
  }

  lemma MulDistributes(a: int, b: int, c: int)
    ensures Mul(a, b + c) == Mul(a, b) + Mul(a, c)
    ensures Mul(b + c, a) == Mul(b, a) + Mul(c, a)
    ensures Mul(a, b - c) == Mul(a, b) - Mul(a, c)
  {
  }

  lemma MulAssociates(a: int, b: int, c: int)
    ensures Mul(a, Mul(b, c)) == Mul(Mul(a, b), c)
  {
  }

  lemma MulCommutes(a: int, b: int)
    ensures Mul(a, b) == Mul(b, a)
  {
  }

  lemma MulOrder(a: int, b: int, c: int)
    requires a <= b && c >= 0
    ensures Mul(a, c) <= Mul(b, c) && Mul(c, a) <= Mul(c, b)
  {
    MulMono(a, b, c);
  }

  lemma QuotientNonNegative(a: int, b: int)
    requires a >= 0 && b > 0
    ensures 0 <= a / b <= a
  {
    var q := a / b;
    assert a == q * b + a % b;
    if q <= -1 {
      MulMono(q, -1, b);
    } else {
      MulMono(1, b, q);
    }
  }

  lemma MulOne(a: int)
    ensures Mul(1, a) == a && Mul(a, 1) == a && Mul(a, 0) == 0 && Mul(0, a) == 0
  {
  }
}
