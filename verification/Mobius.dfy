/** The three implementations of the Moebius function and the squarefree-first mask
    (core/src/shannon_prime.c, core/src/shannon_prime_sqfree.c, core/src/shannon_prime_cauchy.c). */
module Mobius {
  import opened IntArith
  import opened Primes

  // ---------------------------------------------------------------- trial division

  /** No divisor of val lies in [2, p). */
  ghost predicate Smooth(val: int, p: int) {
    forall d :: 2 <= d < p ==> !Divides(d, val)
  }

  /** A divisor found by trial division is prime. */
  lemma FirstDivisorIsPrime(val: int, p: int)
    requires p >= 2 && val > 0 && Smooth(val, p) && Divides(p, val)
    ensures IsPrime(p)
  {
    forall d | 2 <= d < p
      ensures !Divides(d, p)
    {
      if Divides(d, p) {
        DividesTransitive(d, p, val);
      }
    }
  }

  /** A quotient has no divisors that the number did not have. */
  lemma SmoothQuotient(val: int, p: int)
    requires p >= 2 && val > 0 && Smooth(val, p) && Divides(p, val) && !Divides(p, val / p)
    ensures val / p > 0 && Smooth(val / p, p + 1)
  {
    DivisorBound(p, val);
    var v := val / p;
    assert val == v * p;
    forall d | 2 <= d < p
      ensures !Divides(d, v)
    {
      if Divides(d, v) {
        DividesProduct(d, v, p);
      }
    }
  }

  /** What the trial-division loops keep: n's factorisation is `count` primes times val's. */
  ghost predicate Factored(n: int, val: int, count: int) {
    && val > 0
    && |PrimeDivisors(n)| == count + |PrimeDivisors(val)|
    && (HasSquareDivisor(n) <==> HasSquareDivisor(val))
  }

  lemma SquareFound(n: int, val: int, count: int, p: int)
    requires Factored(n, val, count) && IsPrime(p) && Divides(p, val) && Divides(p, val / p)
    ensures HasSquareDivisor(n)
  {
    hide Divides;
    MulPos(p, p);
    SquareOfFactor(val, p);
    SquareFactorBound(p, val);
  }

  lemma SquareOfFactor(val: int, p: int)
    requires p > 0 && p * p > 0 && Divides(p, val) && Divides(p, val / p)
    ensures Divides(p * p, val)
  {
    hide Divides;
    var u := val / p;
    DividesWitness(p, val);
    DividesWitness(p, u);
    Nested(p, u / p);
    MultipleIsDivisible(p * p, val, u / p);
  }

  lemma Nested(p: int, t: int)
    ensures p * (p * t) == (p * p) * t
  {
  }

  lemma FactorRemoved(n: int, val: int, count: int, p: int)
    requires Factored(n, val, count) && IsPrime(p) && Divides(p, val) && !Divides(p, val / p)
    ensures Factored(n, val / p, count + 1)
  {
    RemovePrime(val, p);
  }

  /** What is left when the loop stops is 1 or one more prime. */
  lemma TrialDone(n: int, val: int, count: int, p: int)
    requires Factored(n, val, count) && p >= 2 && Smooth(val, p) && p * p > val
    ensures Mu(n) == if (count + (if val > 1 then 1 else 0)) % 2 == 0 then 1 else -1
  {
    NoSmallDivisors(val, p);
    if val == 1 {
      MuOfOne();
    } else {
      MuOfPrime(val);
    }
  }

  /** One division of the trial loop: either a prime square is found, or one prime is split off. */
  lemma TrialStep(n: int, val: int, count: int, p: int)
    requires Factored(n, val, count) && Smooth(val, p) && p >= 2 && Divides(p, val) && p * p <= val
    ensures Divides(p, val / p) ==> HasSquareDivisor(n)
    ensures !Divides(p, val / p) ==> Factored(n, val / p, count + 1) && Smooth(val / p, p + 1)
    ensures 0 < val / p < val
  {
    hide Factored, Smooth;
    FirstDivisorIsPrime(val, p);
    DivisorBound(p, val);
    MulMono(2, p, val / p);
    assert val == p * (val / p);
    if Divides(p, val / p) {
      SquareFound(n, val, count, p);
    } else {
      SmoothQuotient(val, p);
      FactorRemoved(n, val, count, p);
    }
  }

  lemma TrialSkip(val: int, p: int)
    requires p >= 2 && Smooth(val, p) && !Divides(p, val)
    ensures Smooth(val, p + 1)
  {
  }

  lemma TrialStart(n: int)
    requires n > 0
    ensures Factored(n, n, 0) && Smooth(n, 2)
  {
  }

  lemma BelowSquare(p: int, val: int)
    requires p >= 2 && p * p <= val
    ensures p < val
  {
    MulMono(2, p, p);
  }

  /** `sp_mobius_val`. */
  method MobiusVal(n: int) returns (mu: int)
    ensures n <= 0 ==> mu == 0
    ensures n > 0 ==> mu == Mu(n)
  {
    hide Factored, Smooth, Divides, HasSquareDivisor, PrimeDivisors;
    if n <= 0 {
      return 0;
    }
    if n == 1 {
      MuOfOne();
      return 1;
    }
    TrialStart(n);
    var val, nf, p := n, 0, 2;
    while p * p <= val
      invariant p >= 2 && Factored(n, val, nf) && Smooth(val, p)
      decreases val - p
    {
      BelowSquare(p, val);
      if Divides(p, val) {
        TrialStep(n, val, nf, p);
        nf := nf + 1;
        val := val / p;
        if Divides(p, val) {
          return 0;
        }
      } else {
        TrialSkip(val, p);
      }
      p := p + 1;
    }
    TrialDone(n, val, nf, p);
    if val > 1 {
      nf := nf + 1;
    }
    return if nf % 2 == 0 then 1 else -1;
  }

  /** `mobius_mu`, which counts the factor after the square test. */
  method MobiusMu(n: int) returns (mu: int)
    ensures n <= 0 ==> mu == 0
    ensures n > 0 ==> mu == Mu(n)
  {
    hide Factored, Smooth, Divides, HasSquareDivisor, PrimeDivisors;
    if n <= 0 {
      return 0;
    }
    if n == 1 {
      MuOfOne();
      return 1;
    }
    TrialStart(n);
    var rest, factors, p := n, 0, 2;
    while p * p <= rest
      invariant p >= 2 && Factored(n, rest, factors) && Smooth(rest, p)
      decreases rest - p
    {
      BelowSquare(p, rest);
      if Divides(p, rest) {
        TrialStep(n, rest, factors, p);
        rest := rest / p;
        if Divides(p, rest) {
          return 0;
        }
        factors := factors + 1;
      } else {
        TrialSkip(rest, p);
      }
      p := p + 1;
    }
    TrialDone(n, rest, factors, p);
    if rest > 1 {
      factors := factors + 1;
    }
    return if factors % 2 == 0 then 1 else -1;
  }

  // ---------------------------------------------------------------- the sieve

  /** Between two consecutive multiples of p there is none. */
  lemma NextMultiple(p: int, m: int, x: int)
    requires p > 0 && Divides(p, m) && m <= x < m + p
    ensures Divides(p, x) <==> x == m
  {
    if Divides(p, x) {
      DividesDifference(p, x, m);
      if x != m {
        DivisorBound(p, x - m);
      }
    }
  }

  lemma StepMultiple(p: int, m: int)
    requires p > 0 && Divides(p, m)
    ensures Divides(p, m + p)
  {
    AddMultiple(m, 1, p);
  }

  method CountMultiples(count: array<int>, p: nat)
    requires p > 0
    modifies count
    ensures forall x :: 0 < x < count.Length ==> count[x] == old(count[x]) + (if Divides(p, x) then 1 else 0)
    ensures count.Length > 0 ==> count[0] == old(count[0])
  {
    MultipleIsDivisible(p, p, 1);
    var m := p;
    forall x | 0 < x < p
      ensures !Divides(p, x)
    {
      if Divides(p, x) {
        DivisorBound(p, x);
      }
    }
    while m < count.Length
      invariant m > 0 && Divides(p, m)
      invariant forall x :: 0 < x < count.Length ==>
        count[x] == old(count[x]) + (if Divides(p, x) && x < m then 1 else 0)
      invariant count.Length > 0 ==> count[0] == old(count[0])
    {
      count[m] := count[m] + 1;
      forall x | m <= x < m + p
        ensures Divides(p, x) <==> x == m
      {
        NextMultiple(p, m, x);
      }
      StepMultiple(p, m);
      m := m + p;
    }
  }

  method MarkMultiples(marks: array<bool>, p2: nat)
    requires p2 > 0
    modifies marks
    ensures forall x :: 0 < x < marks.Length ==> marks[x] == (old(marks[x]) || Divides(p2, x))
  {
    MultipleIsDivisible(p2, p2, 1);
    var m := p2;
    forall x | 0 < x < p2
      ensures !Divides(p2, x)
    {
      if Divides(p2, x) {
        DivisorBound(p2, x);
      }
    }
    while m < marks.Length
      invariant m > 0 && Divides(p2, m)
      invariant forall x :: 0 < x < marks.Length ==> marks[x] == (old(marks[x]) || (Divides(p2, x) && x < m))
    {
      marks[m] := true;
      forall x | m <= x < m + p2
        ensures Divides(p2, x) <==> x == m
      {
        NextMultiple(p2, m, x);
      }
      StepMultiple(p2, m);
      m := m + p2;
    }
  }

  /** A number is prime when no smaller prime divides it. */
  lemma UncountedIsPrime(p: int)
    requires p >= 2
    ensures PrimeDivisorsBelow(p, p) == {} <==> IsPrime(p)
  {
    if PrimeDivisorsBelow(p, p) == {} {
      var q := PrimeDivisorExists(p);
      assert q !in PrimeDivisorsBelow(p, p);
    }
  }

  lemma ExtendBound(x: int, p: int)
    requires x > 0 && p >= 2
    ensures IsPrime(p) ==> |PrimeDivisorsBelow(x, p + 1)| == |PrimeDivisorsBelow(x, p)| + (if Divides(p, x) then 1 else 0)
    ensures IsPrime(p) ==> p * p > 0 && (HasSquareBelow(x, p + 1) <==> HasSquareBelow(x, p) || Divides(p * p, x))
    ensures !IsPrime(p) ==> PrimeDivisorsBelow(x, p + 1) == PrimeDivisorsBelow(x, p)
    ensures !IsPrime(p) ==> (HasSquareBelow(x, p + 1) <==> HasSquareBelow(x, p))
  {
    if IsPrime(p) {
      MulPos(p, p);
      assert PrimeDivisorsBelow(x, p + 1) == PrimeDivisorsBelow(x, p) + (if Divides(p, x) then {p} else {});
    } else {
      assert PrimeDivisorsBelow(x, p + 1) == PrimeDivisorsBelow(x, p);
    }
  }

  /** Bounds past the number itself change nothing. */
  lemma BoundPastNumber(x: int, n: int)
    requires 0 < x < n
    ensures PrimeDivisorsBelow(x, n) == PrimeDivisors(x)
    ensures HasSquareBelow(x, n) <==> HasSquareDivisor(x)
  {
    forall q | q in PrimeDivisorsBelow(x, n)
      ensures q in PrimeDivisors(x)
    {
      DivisorBound(q, x);
    }
    if HasSquareBelow(x, n) {
      var q :| 2 <= q < n && IsPrime(q) && Divides(q * q, x);
      MulPos(q, q);
      SquareFactorBound(q, x);
    }
  }

  ghost predicate Sieved(count: array<int>, square: array<bool>, p: int)
    requires count.Length == square.Length
    reads count, square
  {
    forall x :: 0 < x < count.Length ==>
      count[x] == |PrimeDivisorsBelow(x, p)| && (square[x] <==> HasSquareBelow(x, p))
  }

  /** `compute_mobius`: the sieve agrees with the definition on every index from 1. */
  method ComputeMobius(mu: array<int>)
    requires mu.Length > 0
    modifies mu
    ensures mu[0] == 0
    ensures forall i :: 1 <= i < mu.Length ==> mu[i] == Mu(i)
  {
    hide HasSquareDivisor, PrimeDivisors, Mu, Sieved;
    var n := mu.Length;
    mu[0] := 0;
    if n > 1 {
      mu[1] := 1;
    }
    var i := 2;
    while i < n
      invariant i >= 2 && mu[0] == 0 && (n > 1 ==> mu[1] == 1)
    {
      mu[i] := 1;
      i := i + 1;
    }
    var count, square := new int[n](_ => 0), new bool[n](_ => false);
    StartSieve(count, square);
    var p := 2;
    while p < n
      invariant 2 <= p && Sieved(count, square, p)
      invariant mu[0] == 0 && (n > 1 ==> mu[1] == 1)
      invariant n >= 2 ==> p <= n
    {
      SieveStep(count, square, p);
      p := p + 1;
    }
    if n > 1 {
      MobiusOfOne();
      ReadSieve(mu, count, square);
    }
  }

  lemma MobiusOfOne()
    ensures Mu(1) == 1
  {
    MuOfOne();
  }

  lemma StartSieve(count: array<int>, square: array<bool>)
    requires count.Length == square.Length
    requires forall x :: 0 <= x < count.Length ==> count[x] == 0 && !square[x]
    ensures Sieved(count, square, 2)
  {
    forall x | 0 < x < count.Length
      ensures PrimeDivisorsBelow(x, 2) == {} && !HasSquareBelow(x, 2)
    {
    }
  }

  method SieveStep(count: array<int>, square: array<bool>, p: nat)
    requires count.Length == square.Length && 2 <= p < count.Length
    requires Sieved(count, square, p)
    modifies count, square
    ensures Sieved(count, square, p + 1)
  {
    UncountedIsPrime(p);
    forall x | 0 < x < count.Length
      ensures IsPrime(p) ==> |PrimeDivisorsBelow(x, p + 1)| == |PrimeDivisorsBelow(x, p)| + (if Divides(p, x) then 1 else 0)
      ensures IsPrime(p) ==> p * p > 0 && (HasSquareBelow(x, p + 1) <==> HasSquareBelow(x, p) || Divides(p * p, x))
      ensures !IsPrime(p) ==> PrimeDivisorsBelow(x, p + 1) == PrimeDivisorsBelow(x, p)
      ensures !IsPrime(p) ==> (HasSquareBelow(x, p + 1) <==> HasSquareBelow(x, p))
    {
      ExtendBound(x, p);
    }
    if count[p] != 0 {
      return;
    }
    MulPos(p, p);
    CountMultiples(count, p);
    MarkMultiples(square, p * p);
  }

  method ReadSieve(mu: array<int>, count: array<int>, square: array<bool>)
    requires mu.Length == count.Length == square.Length && mu.Length > 1
    requires Sieved(count, square, mu.Length) && mu[1] == Mu(1) && mu[0] == 0
    modifies mu
    ensures mu[0] == 0
    ensures forall i :: 1 <= i < mu.Length ==> mu[i] == Mu(i)
  {
    for i := 2 to mu.Length
      invariant mu[0] == 0 && forall x :: 1 <= x < i ==> mu[x] == Mu(x)
    {
      BoundPastNumber(i, mu.Length);
      if square[i] {
        mu[i] := 0;
      } else {
        mu[i] := if count[i] % 2 == 0 then 1 else -1;
      }
    }
  }
}
