/** Divisibility, primes and the Moebius function by its definition. */
module Primes {
  import opened IntArith

  predicate Divides(d: int, n: int)
    requires d > 0
  {
    n % d == 0
  }

  predicate IsPrime(p: int) {
    2 <= p && forall d :: 2 <= d < p ==> !Divides(d, p)
  }

  /** The distinct primes below `bound` that divide n. */
  ghost function PrimeDivisorsBelow(n: int, bound: int): set<int> {
    set q: int | 2 <= q < bound && IsPrime(q) && Divides(q, n)
  }

  ghost predicate HasSquareBelow(n: int, bound: int) {
    exists q :: 2 <= q < bound && IsPrime(q) && Divides(q * q, n)
  }

  /** The distinct prime divisors of n. */
  ghost function PrimeDivisors(n: int): set<int> {
    PrimeDivisorsBelow(n, n + 1)
  }

  ghost predicate HasSquareDivisor(n: int) {
    HasSquareBelow(n, n + 1)
  }

  /** mu(n): zero on multiples of a prime square, otherwise the parity of the distinct prime divisors. */
  ghost function Mu(n: int): int {
    if HasSquareDivisor(n) then 0 else if |PrimeDivisors(n)| % 2 == 0 then 1 else -1
  }

  // ---------------------------------------------------------------- divisibility

  lemma DividesWitness(d: int, n: int)
    requires d > 0
    ensures Divides(d, n) <==> n == d * (n / d)
  {
  }

  lemma MultipleIsDivisible(d: int, n: int, q: int)
    requires d > 0 && n == d * q
    ensures Divides(d, n) && n / d == q
  {
    DivModUnique(n, d, q, 0);
  }

  lemma DivisorBound(d: int, n: int)
    requires d > 0 && n > 0 && Divides(d, n)
    ensures d <= n && n / d >= 1
  {
    var q := n / d;
    assert n == d * q;
    if q <= 0 {
      MulMono(q, 0, d);
    }
    MulMono(1, q, d);
  }

  lemma DividesTransitive(a: int, b: int, c: int)
    requires a > 0 && b > 0 && Divides(a, b) && Divides(b, c)
    ensures Divides(a, c)
  {
    var q, r := b / a, c / b;
    assert c == (a * q) * r == a * (q * r);
    MultipleIsDivisible(a, c, q * r);
  }

  lemma DividesProduct(d: int, a: int, b: int)
    requires d > 0 && Divides(d, a)
    ensures Divides(d, a * b)
  {
    assert a * b == d * (a / d * b) by {
      assert a == d * (a / d);
    }
    MultipleIsDivisible(d, a * b, a / d * b);
  }

  lemma DividesDifference(d: int, a: int, b: int)
    requires d > 0 && Divides(d, a) && Divides(d, b)
    ensures Divides(d, a - b)
  {
    assert a - b == d * (a / d - b / d);
    MultipleIsDivisible(d, a - b, a / d - b / d);
  }

  /** Every number from 2 on has a prime divisor. */
  lemma PrimeDivisorExists(n: int) returns (p: int)
    requires n >= 2
    ensures IsPrime(p) && Divides(p, n) && p <= n
    decreases n
  {
    if IsPrime(n) {
      MultipleIsDivisible(n, n, 1);
      return n;
    }
    var d :| 2 <= d < n && Divides(d, n);
    p := PrimeDivisorExists(d);
    DividesTransitive(p, d, n);
  }

  predicate Multiplier(p: int, a: int, m: int)
    requires p > 0
  {
    Divides(p, a * m)
  }

  /** The least positive m with p | a * m divides every such m. */
  lemma LeastMultiplier(p: int, a: int, m: int, x: int)
    requires p > 0 && m > 0 && Multiplier(p, a, m) && Multiplier(p, a, x)
    requires forall k :: 0 < k < m ==> !Multiplier(p, a, k)
    ensures Divides(m, x)
  {
    var q, r := x / m, x % m;
    DividesProduct(p, a * m, q);
    assert a * r == a * x - (a * m) * q by {
      assert x == m * q + r;
      assert a * (m * q + r) == (a * m) * q + a * r;
    }
    DividesDifference(p, a * x, (a * m) * q);
    assert Multiplier(p, a, r);
  }

  lemma FindLeastMultiplier(p: int, a: int, top: int) returns (m: int)
    requires p > 0 && top > 0 && Multiplier(p, a, top)
    ensures 0 < m <= top && Multiplier(p, a, m) && forall k :: 0 < k < m ==> !Multiplier(p, a, k)
  {
    m := 1;
    while !Multiplier(p, a, m)
      invariant 0 < m <= top
      invariant forall k :: 0 < k < m ==> !Multiplier(p, a, k)
      decreases top - m
    {
      m := m + 1;
    }
  }

  /** Euclid: a prime that divides a product divides a factor. */
  lemma EuclidsLemma(p: int, a: int, b: int)
    requires IsPrime(p) && Divides(p, a * b)
    ensures Divides(p, a) || Divides(p, b)
  {
    MultipleIsDivisible(p, a * p, a);
    var m := FindLeastMultiplier(p, a, p);
    LeastMultiplier(p, a, m, p);
    if m == 1 {
      assert a * m == a;
    } else {
      assert m == p;
      LeastMultiplier(p, a, m, b);
    }
  }

  // ---------------------------------------------------------------- removing one prime factor

  lemma PrimeDividesPrime(q: int, p: int)
    requires IsPrime(q) && IsPrime(p) && Divides(q, p)
    ensures q == p
  {
    DivisorBound(q, p);
  }

  /** For a prime p that divides n once, n / p has the same prime divisors but p, and the same squares. */
  lemma RemovePrime(n: int, p: int)
    requires n > 0 && IsPrime(p) && Divides(p, n) && !Divides(p, n / p)
    ensures n / p > 0
    ensures p in PrimeDivisors(n) && PrimeDivisors(n / p) == PrimeDivisors(n) - {p}
    ensures HasSquareDivisor(n) <==> HasSquareDivisor(n / p)
  {
    var v := n / p;
    assert n == p * v;
    DivisorBound(p, n);
    hide IsPrime, Divides;
    RemoveFromSet(n, p, v);
    RemoveFromSquares(n, p, v);
  }

  lemma RemoveFromSet(n: int, p: int, v: int)
    requires n > 0 && v > 0 && n == p * v && IsPrime(p) && Divides(p, n) && !Divides(p, v)
    ensures p in PrimeDivisors(n) && PrimeDivisors(v) == PrimeDivisors(n) - {p}
  {
    DivisorBound(p, n);
    forall q | IsPrime(q)
      ensures q in PrimeDivisors(n) <==> q == p || q in PrimeDivisors(v)
    {
      RemovePrimeDivisor(n, p, v, q);
    }
    hide Divides;
    forall q | q in PrimeDivisors(n)
      ensures q == p || q in PrimeDivisors(v)
    {
    }
    forall q | q in PrimeDivisors(v)
      ensures q in PrimeDivisors(n) && q != p
    {
    }
  }

  lemma RemoveFromSquares(n: int, p: int, v: int)
    requires n > 0 && v > 0 && n == p * v && IsPrime(p) && Divides(p, n) && !Divides(p, v)
    ensures HasSquareDivisor(n) <==> HasSquareDivisor(v)
  {
    hide Divides;
    if HasSquareDivisor(n) {
      var q :| 2 <= q < n + 1 && IsPrime(q) && Divides(q * q, n);
      RemovePrimeSquare(n, p, v, q);
    }
    if HasSquareDivisor(v) {
      var q :| 2 <= q < v + 1 && IsPrime(q) && Divides(q * q, v);
      MulPos(q, q);
      DividesProduct(q * q, v, p);
      assert v * p == n;
      SquareFactorBound(q, n);
    }
  }

  lemma SquareFactorBound(q: int, n: int)
    requires q >= 2 && n > 0 && q * q > 0 && Divides(q * q, n)
    ensures q < n + 1
  {
    DivisorBound(q * q, n);
    MulMono(1, q, q);
  }

  lemma RemovePrimeDivisor(n: int, p: int, v: int, q: int)
    requires n > 0 && v > 0 && IsPrime(p) && n == p * v && !Divides(p, v) && IsPrime(q)
    ensures q in PrimeDivisors(n) <==> q == p || q in PrimeDivisors(v)
  {
    if Divides(q, n) {
      EuclidsLemma(q, p, v);
      if Divides(q, p) {
        PrimeDividesPrime(q, p);
      } else {
        DivisorBound(q, v);
      }
    }
    if q == p {
      MultipleIsDivisible(p, n, v);
      DivisorBound(p, n);
    } else if Divides(q, v) {
      DividesProduct(q, v, p);
      assert v * p == n;
      DivisorBound(q, n);
    }
  }

  lemma RemovePrimeSquare(n: int, p: int, v: int, q: int)
    requires n > 0 && v > 0 && IsPrime(p) && n == p * v && !Divides(p, v) && IsPrime(q)
    requires q * q > 0 && Divides(q * q, n)
    ensures HasSquareDivisor(v)
  {
    MultipleIsDivisible(q, q * q, q);
    var w := n / (q * q);
    assert p * v == q * (q * w) by {
      assert n == (q * q) * w;
    }
    MultipleIsDivisible(q, p * v, q * w);
    EuclidsLemma(q, p, v);
    if Divides(q, p) {
      PrimeDividesPrime(q, p);
      assert v == q * w by {
        CancelFactor(p, v, q * w);
      }
      MultipleIsDivisible(p, v, w);
      assert false;
    }
    // q divides v; the second q divides v / q
    var u := v / q;
    assert v == q * u;
    assert p * u == q * w by {
      assert q * (p * u) == q * (q * w);
      CancelFactor(q, p * u, q * w);
    }
    MultipleIsDivisible(q, p * u, w);
    EuclidsLemma(q, p, u);
    if Divides(q, p) {
      PrimeDividesPrime(q, p);
      MultipleIsDivisible(q, v, u);
      assert false;
    }
    var t := u / q;
    assert v == (q * q) * t by {
      assert u == q * t;
    }
    MultipleIsDivisible(q * q, v, t);
    SquareFactorBound(q, v);
  }

  lemma CancelFactor(a: int, b: int, c: int)
    requires a > 0 && a * b == a * c
    ensures b == c
  {
    if b < c {
      MulMono(b + 1, c, a);
    } else if c < b {
      MulMono(c + 1, b, a);
    }
  }

  /** Of two complementary divisors one is below any p with p * p > n. */
  lemma SmallDivisor(n: int, p: int, d: int)
    requires n > 0 && p >= 2 && p * p > n && 2 <= d < n && Divides(d, n)
    ensures d < p || (2 <= n / d < p && Divides(n / d, n))
  {
    var q := n / d;
    assert n == d * q;
    DivisorBound(d, n);
    MultipleIsDivisible(q, n, d);
    assert d * p == p * d;
    if d >= p && q >= p {
      MulMono(p, d, p);
      MulMono(p, q, d);
    }
  }

  /** A number without divisors below its square root is 1 or prime. */
  lemma NoSmallDivisors(n: int, p: int)
    requires n > 0 && p >= 2 && p * p > n && forall d :: 2 <= d < p ==> !Divides(d, n)
    ensures n == 1 || IsPrime(n)
  {
    forall d | 2 <= d < n
      ensures !Divides(d, n)
    {
      if Divides(d, n) {
        SmallDivisor(n, p, d);
      }
    }
  }

  lemma MuOfOne()
    ensures !HasSquareDivisor(1) && PrimeDivisors(1) == {}
  {
  }

  lemma MuOfPrime(p: int)
    requires IsPrime(p)
    ensures !HasSquareDivisor(p) && PrimeDivisors(p) == {p}
  {
    MultipleIsDivisible(p, p, 1);
    forall q | q in PrimeDivisors(p)
      ensures q == p
    {
      PrimeDividesPrime(q, p);
    }
    assert p in PrimeDivisors(p);
    if q :| 2 <= q < p + 1 && IsPrime(q) && Divides(q * q, p) {
      MulPos(q, q);
      MultipleIsDivisible(q, q * q, q);
      DividesTransitive(q, q * q, p);
      PrimeDividesPrime(q, p);
      DivisorBound(q * q, p);
      MulMono(2, q, q);
    }
  }
}
