/** The Kronecker sub-projection (core/src/shannon_prime_sqfree.c, `sp_kronecker_sub_indices` and the
    index part of `sp_hier_predictor_init`): indices whose mixed-radix digits vanish from a level on. */
module Kronecker {
  import opened IntArith

  /** The product of the radices a <= f < b. */
  function Radix(primes: seq<nat>, a: nat, b: nat): int
    requires a <= b <= |primes|
    decreases b - a
  {
    if a == b then 1 else Mul(primes[a], Radix(primes, a + 1, b))
  }

  predicate Positive(primes: seq<nat>) {
    forall f :: 0 <= f < |primes| ==> primes[f] > 0
  }

  lemma {:induction false} RadixPositive(primes: seq<nat>, a: nat, b: nat)
    requires a <= b <= |primes| && Positive(primes)
    ensures Radix(primes, a, b) > 0
    decreases b - a
  {
    if a < b {
      RadixPositive(primes, a + 1, b);
      MulPos(primes[a], Radix(primes, a + 1, b));
    }
  }

  /** Digit by digit from radix f on: those from `level` on are zero. */
  ghost predicate DigitsVanish(remaining: nat, primes: seq<nat>, f: nat, level: nat)
    requires f <= |primes| && Positive(primes)
    decreases |primes| - f
  {
    f == |primes|
    || (QuotientNonNegative(remaining, primes[f]);
        (f >= level ==> remaining % primes[f] == 0) && DigitsVanish(remaining / primes[f], primes, f + 1, level))
  }

  /** Past the level, all digits vanish exactly for the multiples of the product of the radices left. */
  lemma {:induction false} VanishIsMultiple(remaining: nat, primes: seq<nat>, f: nat, level: nat)
    requires level <= f <= |primes| && Positive(primes)
    ensures Radix(primes, f, |primes|) > 0
    ensures DigitsVanish(remaining, primes, f, level) <==> remaining % Radix(primes, f, |primes|) == 0
    decreases |primes| - f
  {
    RadixPositive(primes, f, |primes|);
    if f < |primes| {
      var p, rest := primes[f], Radix(primes, f + 1, |primes|);
      QuotientNonNegative(remaining, p);
      RadixPositive(primes, f + 1, |primes|);
      VanishIsMultiple(remaining / p, primes, f + 1, level);
      DivDiv(remaining, p, rest);
      SplitZero(remaining / p % rest, p, remaining % p);
    }
  }

  lemma SplitZero(k: int, p: int, r: int)
    requires k >= 0 && p > 0 && 0 <= r < p
    ensures k * p + r == 0 <==> k == 0 && r == 0
  {
    if k >= 1 {
      MulMono(1, k, p);
    }
  }

  /** Before the level digits are only divided out. */
  lemma {:induction false} VanishSkips(remaining: nat, primes: seq<nat>, f: nat, level: nat)
    requires f <= level <= |primes| && Positive(primes)
    ensures Radix(primes, f, level) > 0 && remaining / Radix(primes, f, level) >= 0
    ensures DigitsVanish(remaining, primes, f, level)
            <==> DigitsVanish(remaining / Radix(primes, f, level), primes, level, level)
    decreases level - f
  {
    RadixPositive(primes, f, level);
    QuotientNonNegative(remaining, Radix(primes, f, level));
    if f < level {
      var p, rest := primes[f], Radix(primes, f + 1, level);
      QuotientNonNegative(remaining, p);
      RadixPositive(primes, f + 1, level);
      VanishSkips(remaining / p, primes, f + 1, level);
      DivDiv(remaining, p, rest);
    }
  }

  lemma {:induction false} RadixSplit(primes: seq<nat>, a: nat, m: nat, b: nat)
    requires a <= m <= b <= |primes|
    ensures Radix(primes, a, b) == Mul(Radix(primes, a, m), Radix(primes, m, b))
    decreases m - a
  {
    if a < m {
      RadixSplit(primes, a + 1, m, b);
      MulAssociates(primes[a], Radix(primes, a + 1, m), Radix(primes, m, b));
    } else {
      MulOne(Radix(primes, m, b));
    }
  }

  /** The digit filter keeps i exactly when i lies below the sub-dimension or at least one whole product
      of all radices away from there. */
  lemma FilterKeeps(i: nat, primes: seq<nat>, level: nat)
    requires level <= |primes| && Positive(primes)
    ensures Radix(primes, 0, level) > 0 && Radix(primes, 0, |primes|) > 0
    ensures i < Radix(primes, 0, level) ==> DigitsVanish(i, primes, 0, level)
    ensures DigitsVanish(i, primes, 0, level) ==> i < Radix(primes, 0, level) || i >= Radix(primes, 0, |primes|)
  {
    var sub, rest := Radix(primes, 0, level), Radix(primes, level, |primes|);
    VanishSkips(i, primes, 0, level);
    VanishIsMultiple(i / sub, primes, level, level);
    RadixPositive(primes, 0, |primes|);
    RadixSplit(primes, 0, level, |primes|);
    var q := i / sub;
    assert i == q * sub + i % sub;
    if i < sub {
      DivModUnique(i, sub, 0, i);
      DivModUnique(0, rest, 0, 0);
    } else if q % rest == 0 {
      if q >= rest {
        MulMono(rest, q, sub);
      } else {
        DivModUnique(q, rest, 0, q);
      }
    }
  }

  /** The source's test of one index. */
  method Keeps(i: nat, primes: seq<nat>, level: nat) returns (keep: bool)
    requires Positive(primes)
    ensures keep <==> DigitsVanish(i, primes, 0, level)
  {
    var remaining: nat := i;
    for f := 0 to |primes|
      invariant DigitsVanish(i, primes, 0, level) <==> DigitsVanish(remaining, primes, f, level)
    {
      var digit := remaining % primes[f];
      QuotientNonNegative(remaining, primes[f]);
      remaining := remaining / primes[f];
      if f >= level && digit != 0 {
        return false;
      }
    }
    return true;
  }

  /** 0, 1, ..., n - 1 from lo on. */
  function Range(lo: nat, hi: nat): (r: seq<nat>)
    requires lo <= hi
    ensures |r| == hi - lo && forall i :: 0 <= i < |r| ==> r[i] == lo + i
  {
    seq(hi - lo, i requires 0 <= i => lo + i)
  }

  function Min(a: nat, b: nat): nat {
    if a < b then a else b
  }

  /** `sp_kronecker_sub_indices`: the kept indices are a prefix, whatever the padded dimension. */
  method SubIndices(padDim: nat, primes: seq<nat>, level: int) returns (rc: int, idx: seq<nat>)
    requires Positive(primes)
    ensures level <= 0 || level > |primes| ==> rc == -1 && idx == []
    ensures 0 < level <= |primes| ==>
              rc == 0 && Radix(primes, 0, level) > 0 && idx == Range(0, Min(Radix(primes, 0, level), padDim))
  {
    idx := [];
    if level <= 0 || level > |primes| {
      return -1, idx;
    }
    hide DigitsVanish;
    RadixPositive(primes, 0, level);
    var subDim: nat := Product(primes, level);
    for i := 0 to padDim
      invariant idx == Range(0, Min(subDim, i))
    {
      var keep := Keeps(i, primes, level);
      FilterKeeps(i, primes, level);
      if keep && |idx| < subDim {
        idx := idx + [i];
      }
    }
    rc := 0;
  }

  method Product(primes: seq<nat>, level: nat) returns (sub: int)
    requires level <= |primes|
    ensures sub == Radix(primes, 0, level)
  {
    hide Mul;
    sub := 1;
    MulOne(1);
    for i := 0 to level
      invariant sub == Radix(primes, 0, i)
    {
      RadixSplit(primes, 0, i, i + 1);
      MulOne(primes[i]);
      sub := Mul(sub, primes[i]);
    }
  }

  /** The index part of the predictor's init: an automatic level leaves one prime out; skeleton and targets
      are the two parts of the index range. */
  method SplitIndices(padDim: nat, primes: seq<nat>, requested: int) returns (rc: int, level: int, skeleton: seq<nat>, target: seq<nat>)
    requires Positive(primes)
    ensures level == if requested <= 0 || requested >= |primes| then |primes| - 1 else requested
    ensures rc == if level <= 0 then -1 else 0
    ensures rc == 0 ==>
              && 0 < level <= |primes| && Radix(primes, 0, level) > 0
              && skeleton == Range(0, Min(Radix(primes, 0, level), padDim))
              && target == Range(Min(Radix(primes, 0, level), padDim), padDim)
              && skeleton + target == Range(0, padDim)
  {
    level := if requested <= 0 || requested >= |primes| then |primes| - 1 else requested;
    target := [];
    rc, skeleton := SubIndices(padDim, primes, level);
    if rc != 0 {
      return;
    }
    var inSkel := new bool[padDim](_ => false);
    for s := 0 to |skeleton|
      invariant forall i :: 0 <= i < padDim ==> inSkel[i] == (i < s)
    {
      inSkel[skeleton[s]] := true;
    }
    for i := 0 to padDim
      invariant target == if i <= |skeleton| then [] else Range(|skeleton|, i)
    {
      if !inSkel[i] {
        target := target + [i];
      }
    }
  }
}
