/** What the Möbius function of core/src/shannon_prime_sqfree.c (`sp_mobius_val`) is for: over the divisors of any
    number but one it sums to zero. This determines the function, whatever way it is computed. */
module MobiusSum {
  import opened IntArith
  import opened Mobius
  import opened Primes
  import opened Sums

  /** A new prime turns the sign. */
  lemma MuTimesPrime(p: int, e: int)
    requires IsPrime(p) && e > 0 && !Divides(p, e)
    ensures Mu(p * e) == -Mu(e)
  {
    MulPos(p, e);
    MultipleIsDivisible(p, p * e, e);
    var n := p * e;
    RemovePrime(n, p);
    hide IsPrime, Divides, HasSquareDivisor, PrimeDivisors;
    OneMorePrime(n, e, p);
  }

  lemma OneMorePrime(n: int, v: int, p: int)
    requires p in PrimeDivisors(n) && PrimeDivisors(v) == PrimeDivisors(n) - {p} && (HasSquareDivisor(n) <==> HasSquareDivisor(v))
    ensures Mu(n) == -Mu(v)
  {
    hide HasSquareDivisor, PrimeDivisors;
    var a, b := PrimeDivisors(n), PrimeDivisors(v);
    assert a == b + {p};
    assert |a| == |b| + 1;
    hide Divides, IsPrime;
    ParityTurns(|b|);
  }

  lemma ParityTurns(k: nat)
    ensures (k + 1) % 2 == 0 <==> k % 2 == 1
  {
  }

  /** A repeated prime makes it vanish. */
  lemma MuOfSquare(p: int, e: int)
    requires IsPrime(p) && e > 0 && Divides(p, e)
    ensures Mu(p * e) == 0
  {
    MulPos(p, e);
    var q := e / p;
    assert e == p * q;
    assert p * e == (p * p) * q;
    MulPos(p, p);
    MultipleIsDivisible(p * p, p * e, q);
    SquareFactorBound(p, p * e);
    assert HasSquareDivisor(p * e);
  }

  /** A divisor that p does not divide divides what is left without p. */
  lemma WithoutPrime(d: int, p: int, n: int, m: int)
    requires IsPrime(p) && d > 0 && n == p * m && m > 0
    ensures p * d > 0
    ensures !Divides(p, d) && Divides(d, n) ==> Divides(d, m) && Divides(p * d, n)
  {
    MulPos(p, d);
    if !Divides(p, d) && Divides(d, n) {
      var e := n / d;
      assert n == d * e;
      MultipleIsDivisible(p, d * e, m);
      EuclidsLemma(p, d, e);
      var k := e / p;
      assert e == p * k;
      Regrouped(d, p, k);
      CancelFactor(p, m, d * k);
      MultipleIsDivisible(d, m, k);
      MultipleIsDivisible(p * d, n, k);
    }
  }

  lemma Regrouped(d: int, p: int, k: int)
    ensures d * (p * k) == p * (d * k) == (p * d) * k
  {
  }

  lemma CancelFactor(p: int, a: int, b: int)
    requires p > 0 && p * a == p * b
    ensures a == b
  {
    if a < b {
      MulMono(a + 1, b, p);
    } else if b < a {
      MulMono(b + 1, a, p);
    }
  }

  lemma {:induction false} SumMultiples(p: nat, m: nat, h: int -> real, k: int -> real)
    requires p > 0 && (forall d :: d % p != 0 ==> h(d) == 0.0) && forall e :: 1 <= e <= m ==> k(e) == h(p * e)
    ensures p * m >= 0 && Sum(1, p * m + 1, h) == Sum(1, m + 1, k)
    decreases m
  {
    MulMono(0, m, p);
    if m > 0 {
      SumMultiples(p, m - 1, h, k);
      BetweenMultiples(p, m);
      var lo, hi := p * (m - 1) + 1, p * m + 1;
      hide Sum;
      AddLast(lo, hi, h);
      AddLast(m, m + 1, k);
      SumSplit(1, lo, hi, h);
      SumSplit(1, m, m + 1, k);
    }
  }

  lemma BetweenMultiples(p: nat, m: nat)
    requires p > 0 && m > 0
    ensures 1 <= p * (m - 1) + 1 < p * m + 1
    ensures forall d :: p * (m - 1) + 1 <= d < p * m ==> d % p != 0
  {
    MulMono(0, m - 1, p);
    assert p * m == p * (m - 1) + p;
    forall d | p * (m - 1) + 1 <= d < p * m
      ensures d % p != 0
    {
      DivModUnique(d, p, m - 1, d - p * (m - 1));
    }
  }

  lemma AddLast(lo: int, hi: int, h: int -> real)
    requires lo < hi && forall d :: lo <= d < hi - 1 ==> h(d) == 0.0
    ensures Sum(lo, hi, h) == h(hi - 1)
  {
    SumSingle(lo, hi, hi - 1, h);
  }

  ghost predicate IsDivisorMark(n: int, f: int -> real) {
    forall d :: 1 <= d <= n ==> f(d) == if n % d == 0 then Mu(d) as real else 0.0
  }

  /** The divisors with and without one more p cancel. */
  lemma PairCancels(p: int, n: int, m: int, f: int -> real, e: int)
    requires IsPrime(p) && n == p * m && m > 0 && 1 <= e <= m && IsDivisorMark(n, f)
    ensures 1 <= p * e <= n && e <= n
    ensures f(p * e) == if e % p == 0 then 0.0 else -f(e)
  {
    MulMono(1, e, p);
    MulMono(e, m, p);
    MulMono(1, p, e);
    assert e * p == p * e && m * p == p * m;
    hide Mu;
    if e % p == 0 {
      MuOfSquare(p, e);
    } else {
      MuTimesPrime(p, e);
      WithoutPrime(e, p, n, m);
      if Divides(p * e, n) {
        MultipleIsDivisible(e, p * e, p);
        DividesTransitive(e, p * e, n);
      }
    }
  }

  /** A divisor that p does not divide is at most n / p. */
  lemma BeyondIsZero(p: int, n: int, m: int, f: int -> real, d: int)
    requires IsPrime(p) && n == p * m && m > 0 && m < d <= n && d % p != 0 && IsDivisorMark(n, f)
    ensures f(d) == 0.0
  {
    hide Mu;
    if Divides(d, n) {
      WithoutPrime(d, p, n, m);
      DivisorBound(d, m);
    }
  }

  /** Sum of mu over the divisors of n: one for n = 1, zero for every other n. */
  lemma MuDivisorSum(n: nat, f: int -> real)
    requires n > 0 && forall d :: 1 <= d <= n ==> f(d) == if n % d == 0 then Mu(d) as real else 0.0
    ensures Sum(1, n + 1, f) == if n == 1 then 1.0 else 0.0
  {
    hide Mu;
    if n == 1 {
      MobiusOfOne();
      SumSingle(1, 2, 1, f);
    } else {
      assert IsDivisorMark(n, f);
      var p := PrimeDivisorExists(n);
      var m := n / p;
      assert n == p * m;
      DivisorBound(p, n);
      DivisorsCancel(n, p, m, f);
    }
  }

  lemma DivisorsCancel(n: nat, p: nat, m: nat, f: int -> real)
    requires IsPrime(p) && n == p * m && m > 0 && IsDivisorMark(n, f)
    ensures Sum(1, n + 1, f) == 0.0
  {
    hide IsDivisorMark, IsPrime, Sum, With, Without, Multiples;
    PrimeAboveOne(p);
    var g, h := Without(p, f), With(p, f);
    Parted(p, f);
    SumAdd(1, n + 1, g, h, f);
    var k := Multiples(p, h);
    SumOfMultiples(n, p, m, f);
    ShortSum(n, p, m, f);
    forall e | 1 <= e < m + 1
      ensures k(e) == -1.0 * g(e)
    {
      PairOfParts(p, n, m, f, e);
    }
    SumScale(1, m + 1, -1.0, g, k);
  }

  ghost function Multiples(p: int, h: int -> real): int -> real {
    (e: int) => h(p * e)
  }

  lemma SumOfMultiples(n: nat, p: nat, m: nat, f: int -> real)
    requires p > 0 && n == p * m
    ensures Sum(1, n + 1, With(p, f)) == Sum(1, m + 1, Multiples(p, With(p, f)))
  {
    hide Sum;
    SumMultiples(p, m, With(p, f), Multiples(p, With(p, f)));
  }

  lemma PairOfParts(p: int, n: int, m: int, f: int -> real, e: int)
    requires IsPrime(p) && p > 0 && n == p * m && m > 0 && 1 <= e <= m && IsDivisorMark(n, f)
    ensures Multiples(p, With(p, f))(e) == -1.0 * Without(p, f)(e)
  {
    hide IsPrime, IsDivisorMark;
    PairCancels(p, n, m, f, e);
    MultipleRemainder(p, e);
  }

  /** The part of f on the multiples of p, and the rest. */
  ghost function With(p: int, f: int -> real): int -> real
    requires p > 0
  {
    (d: int) => if d % p == 0 then f(d) else 0.0
  }

  ghost function Without(p: int, f: int -> real): int -> real
    requires p > 0
  {
    (d: int) => if d % p != 0 then f(d) else 0.0
  }

  lemma Parted(p: int, f: int -> real)
    requires p > 0
    ensures forall d :: f(d) == Without(p, f)(d) + With(p, f)(d)
    ensures forall d :: d % p != 0 ==> With(p, f)(d) == 0.0
  {
  }

  lemma MultipleRemainder(p: int, e: int)
    requires p > 0
    ensures (p * e) % p == 0
  {
    DivModUnique(p * e, p, e, 0);
  }

  /** The divisors that p does not divide end at n / p. */
  lemma ShortSum(n: nat, p: nat, m: nat, f: int -> real)
    requires IsPrime(p) && p > 1 && n == p * m && m > 0 && IsDivisorMark(n, f)
    ensures Sum(1, n + 1, Without(p, f)) == Sum(1, m + 1, Without(p, f))
  {
    hide IsDivisorMark, IsPrime, Sum;
    MulMono(1, p, m);
    var g := Without(p, f);
    forall d | m + 1 <= d < n + 1
      ensures g(d) == 0.0
    {
      if d % p != 0 {
        BeyondIsZero(p, n, m, f, d);
      }
    }
    hide Without;
    SumSplit(1, m + 1, n + 1, g);
    SumZero(m + 1, n + 1, g);
  }

  lemma PrimeAboveOne(p: int)
    requires IsPrime(p)
    ensures p > 1
  {
  }
}
