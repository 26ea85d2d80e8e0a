/** The VHT2 of core/src/shannon_prime.c in closed form: one sum against a kernel that is a product over the
    digits of both indices, the radices being the factors 2, 3, 5, 7 and 11 of the length in ascending order. */
module Vht2Kernel {
  import opened IntArith
  import opened Matrices
  import opened Primes
  import opened RealArith
  import opened Sums
  import opened Vht2
  import opened Vht2Theory

  /** Entry (x, y) of the transform: the kernel entries at the digits of x and y, the first radix being that of
      the lowest digit. Indices that differ above the last digit do not meet. */
  ghost function KernelAt(h: Kernels, radices: seq<nat>, x: int, y: int): real
    requires forall i :: 0 <= i < |radices| ==> radices[i] > 0
  {
    if radices == [] then if x == y then 1.0 else 0.0
    else
      var p := radices[0];
      Times(h(p)(x % p, y % p), KernelAt(h, radices[1..], x / p, y / p))
  }

  function ProductOf(radices: seq<nat>): nat {
    if radices == [] then 1 else radices[0] * ProductOf(radices[1..])
  }

  predicate Ascending(radices: seq<nat>) {
    forall i, k :: 0 <= i < k < |radices| ==> radices[i] <= radices[k]
  }

  /** The factors 2, 3, 5, 7 and 11 of n, in ascending order and as often as they occur. */
  ghost predicate SmallFactors(n: nat, radices: seq<nat>) {
    && (forall i :: 0 <= i < |radices| ==> radices[i] in {2, 3, 5, 7, 11})
    && Ascending(radices)
    && exists rest: nat :: Leaves(n, radices, rest)
  }

  /** The rest that the factors leave has none of the five primes. */
  predicate Leaves(n: nat, radices: seq<nat>, rest: nat) {
    && n == ProductOf(radices) * rest
    && rest % 2 != 0 && rest % 3 != 0 && rest % 5 != 0 && rest % 7 != 0 && rest % 11 != 0
  }

  // ---------------------------------------------------------------- stages of a list of radices

  /** The stages of a list of radices, from a stride on. */
  function Stages(radices: seq<nat>, stride: nat): seq<StageSpec> {
    if radices == [] then [] else [StageSpec(radices[0], stride)] + Stages(radices[1..], stride * radices[0])
  }

  lemma {:induction false} StagesChain(radices: seq<nat>, stride: nat)
    requires stride > 0 && forall i :: 0 <= i < |radices| ==> radices[i] > 0
    ensures Chained(Stages(radices, stride), stride)
    decreases |radices|
  {
    if radices != [] {
      MulPos(stride, radices[0]);
      StagesChain(radices[1..], stride * radices[0]);
      assert Stages(radices, stride)[1..] == Stages(radices[1..], stride * radices[0]);
    }
  }

  /** Every p-th entry of a vector, from j on. */
  ghost function Strided(e: Vector, p: int, j: int): Vector {
    (z: int) => e(z * p + j)
  }

  /** A stage whose stride is a multiple of p works on the entries of equal remainder modulo p apart. */
  lemma StageDecimates(h: Kernels, q: nat, s: nat, p: nat, e: Vector, x: int)
    requires q > 0 && s > 0 && p > 0
    ensures s * p > 0 && Stage(h, q, s * p, e)(x) == Stage(h, q, s, Strided(e, p, x % p))(x / p)
  {
    hide Dot, Stage, Along, Strided, Digit;
    MulPos(s, p);
    DigitDecimates(x, s, p, q);
    var k := Digit(x / p, s, q);
    var u, w := Along(e, x, s * p, q), Along(Strided(e, p, x % p), x / p, s, q);
    forall m | 0 <= m < q
      ensures u(m) == w(m)
    {
      AlongDecimates(e, x, s, p, q, m);
    }
    StageAt(h, q, s * p, e, x);
    StageAt(h, q, s, Strided(e, p, x % p), x / p);
    DotCommutes(q, u, Row(h(q), k));
    DotCommutes(q, w, Row(h(q), k));
    DotCong(q, Row(h(q), k), u, w);
  }

  lemma DigitDecimates(x: int, s: int, p: int, q: int)
    requires q > 0 && s > 0 && p > 0
    ensures s * p > 0 && Digit(x, s * p, q) == Digit(x / p, s, q)
  {
    MulPos(s, p);
    DivDiv(x, p, s);
    assert p * s == s * p;
  }

  lemma AlongDecimates(e: Vector, x: int, s: int, p: int, q: int, m: int)
    requires q > 0 && s > 0 && p > 0
    ensures s * p > 0 && Along(e, x, s * p, q)(m) == Along(Strided(e, p, x % p), x / p, s, q)(m)
  {
    MoveIsStrided(x, s, p, q, m);
    hide Move;
  }

  lemma MoveIsStrided(x: int, s: int, p: int, q: int, m: int)
    requires q > 0 && s > 0 && p > 0
    ensures s * p > 0 && Move(x, s * p, q, m) == Move(x / p, s, q, m) * p + x % p
  {
    DigitDecimates(x, s, p, q);
    hide Digit;
    MoveDecimates(x, s, p, m - Digit(x / p, s, q));
  }

  lemma MoveDecimates(x: int, s: int, p: int, step: int)
    requires p > 0
    ensures x + step * (s * p) == (x / p + step * s) * p + x % p
  {
    assert step * (s * p) == (step * s) * p;
    assert (x / p + step * s) * p == x / p * p + (step * s) * p;
  }

  lemma {:induction false} RunDecimates(h: Kernels, radices: seq<nat>, s: nat, p: nat, e: Vector, x: int)
    requires s > 0 && p > 0 && forall i :: 0 <= i < |radices| ==> radices[i] > 0
    ensures s * p > 0 && Chained(Stages(radices, s * p), s * p) && Chained(Stages(radices, s), s)
    ensures Run(h, Stages(radices, s * p), s * p, e)(x) == Run(h, Stages(radices, s), s, Strided(e, p, x % p))(x / p)
    decreases |radices|
  {
    hide Stage;
    MulPos(s, p);
    StagesChain(radices, s * p);
    StagesChain(radices, s);
    if radices != [] {
      var r, rest := radices[0], radices[1..];
      MulPos(s, r);
      assert (s * p) * r == (s * r) * p;
      var e' := Stage(h, r, s * p, e);
      RunDecimates(h, rest, s * r, p, e', x);
      var a, b := Strided(e', p, x % p), Stage(h, r, s, Strided(e, p, x % p));
      forall z: int
        ensures a(z) == b(z)
      {
        DivModUnique(z * p + x % p, p, z, x % p);
        StageDecimates(h, r, s, p, e, z * p + x % p);
      }
      RunCong(h, Stages(rest, s * r), s * r, a, b);
      assert Stages(radices, s * p)[1..] == Stages(rest, (s * r) * p);
      assert Stages(radices, s)[1..] == Stages(rest, s * r);
    }
  }

  // ---------------------------------------------------------------- the closed form

  ghost function Summand(h: Kernels, radices: seq<nat>, d: Vector, x: int): Vector
    requires forall i :: 0 <= i < |radices| ==> radices[i] > 0
  {
    (y: int) => Times(d(y), KernelAt(h, radices, x, y))
  }

  lemma {:induction false} RunIsKernel(h: Kernels, radices: seq<nat>, n: nat, rest: nat, d: Vector, x: int)
    requires n == ProductOf(radices) * rest && 0 <= x < n && forall i :: 0 <= i < |radices| ==> radices[i] > 0
    ensures Chained(Stages(radices, 1), 1)
    ensures Run(h, Stages(radices, 1), 1, d)(x) == Sum(0, n, Summand(h, radices, d, x))
    decreases |radices|
  {
    StagesChain(radices, 1);
    if radices == [] {
      forall y: int
        ensures Summand(h, [], d, x)(y) == if y == x then d(x) else 0.0
      {
        NoDigits(h, d, x, y);
      }
      SumSingle(0, n, x, Summand(h, [], d, x));
    } else {
      hide Stage;
      var p, tail := radices[0], radices[1..];
      var m := ProductOf(tail) * rest;
      MulMono(0, ProductOf(tail), rest);
      TailLength(n, radices, rest, m, x);
      hide ProductOf, KernelAt, Summand, Strided;
      var e := Stage(h, p, 1, d);
      assert Stages(radices, 1)[1..] == Stages(tail, 1 * p);
      RunDecimates(h, tail, 1, p, e, x);
      var f := Strided(e, p, x % p);
      RunIsKernel(h, tail, m, rest, f, x / p);
      SumOfBlocks(h, radices, d, x, m);
    }
  }

  lemma NoDigits(h: Kernels, d: Vector, x: int, y: int)
    ensures Summand(h, [], d, x)(y) == if y == x then d(x) else 0.0
  {
    assert KernelAt(h, [], x, y) == if x == y then 1.0 else 0.0;
    assert Times(d(y), 1.0) == d(y) && Times(d(y), 0.0) == 0.0;
  }

  lemma TailLength(n: nat, radices: seq<nat>, rest: nat, m: nat, x: int)
    requires radices != [] && radices[0] > 0 && n == ProductOf(radices) * rest && m == ProductOf(radices[1..]) * rest
    requires 0 <= x < n
    ensures n == m * radices[0] && 0 <= x / radices[0] < m
  {
    LengthOfTail(radices[0], ProductOf(radices[1..]), rest);
    QuotientBelow(x, radices[0], m);
  }

  lemma LengthOfTail(p: int, t: int, rest: int)
    ensures (p * t) * rest == (t * rest) * p
  {
  }

  /** Summing against the kernel of all radices is summing, against that of all but the first, what the first
      stage leaves. */
  lemma SumOfBlocks(h: Kernels, radices: seq<nat>, d: Vector, x: int, m: nat)
    requires radices != [] && forall i :: 0 <= i < |radices| ==> radices[i] > 0
    ensures var p := radices[0];
            Sum(0, m, Summand(h, radices[1..], Strided(Stage(h, p, 1, d), p, x % p), x / p))
            == Sum(0, m * p, Summand(h, radices, d, x))
  {
    hide Sum, Stage, KernelAt;
    var p, tail := radices[0], radices[1..];
    var F := Summand(h, radices, d, x);
    var f := Strided(Stage(h, p, 1, d), p, x % p);
    SumBlocks(m, p, F);
    var outer, inner := Summand(h, tail, f, x / p), (z: int) => Sum(0, p, (j: int) => F(z * p + j));
    forall z | 0 <= z < m
      ensures outer(z) == inner(z)
    {
      OneBlock(h, radices, d, x, z);
    }
    SumCong(0, m, outer, inner);
  }

  lemma OneBlock(h: Kernels, radices: seq<nat>, d: Vector, x: int, z: int)
    requires radices != [] && forall i :: 0 <= i < |radices| ==> radices[i] > 0
    ensures var p := radices[0];
            Times(Stage(h, p, 1, d)(z * p + x % p), KernelAt(h, radices[1..], x / p, z))
            == Sum(0, p, (j: int) => Summand(h, radices, d, x)(z * p + j))
  {
    hide Sum, Stage, Times, Along, Summand, Dot;
    var p, tail := radices[0], radices[1..];
    var k, y := KernelAt(h, tail, x / p, z), z * p + x % p;
    var term, scaled := (j: int) => d(z * p + j) * h(p)(x % p, j), (j: int) => Summand(h, radices, d, x)(z * p + j);
    forall j | 0 <= j < p
      ensures scaled(j) == k * term(j)
      ensures Along(d, y, 1, p)(j) * Row(h(p), x % p)(j) == term(j)
    {
      SummandAt(h, radices, d, x, z, j);
      AlongBlock(d, p, x % p, z, j);
      Triple(d(z * p + j), h(p)(x % p, j), k);
    }
    DigitOfBlock(p, x % p, z);
    StageAt(h, p, 1, d, y);
    DotSum(p, Along(d, y, 1, p), Row(h(p), x % p), term);
    SumScale(0, p, k, term, scaled);
    TimesSwapped(Sum(0, p, term), k);
  }

  lemma DigitOfBlock(p: int, r: int, z: int)
    requires 0 <= r < p
    ensures Digit(z * p + r, 1, p) == r
  {
    DivModUnique(z * p + r, p, z, r);
  }

  lemma AlongBlock(d: Vector, p: int, r: int, z: int, j: int)
    requires 0 <= r < p
    ensures Along(d, z * p + r, 1, p)(j) == d(z * p + j)
  {
    DigitOfBlock(p, r, z);
    hide Digit;
    assert Move(z * p + r, 1, p, j) == z * p + j;
    hide Move;
  }

  lemma SummandAt(h: Kernels, radices: seq<nat>, d: Vector, x: int, z: int, j: int)
    requires radices != [] && (forall i :: 0 <= i < |radices| ==> radices[i] > 0) && 0 <= j < radices[0]
    ensures var p := radices[0];
            Summand(h, radices, d, x)(z * p + j)
            == Times(d(z * p + j), Times(h(p)(x % p, j), KernelAt(h, radices[1..], x / p, z)))
  {
    hide Times;
    DivModUnique(z * radices[0] + j, radices[0], z, j);
  }

  lemma Triple(a: real, b: real, k: real)
    ensures Times(a, Times(b, k)) == k * (a * b)
  {
  }

  lemma TimesSwapped(a: real, k: real)
    ensures Times(a, k) == k * a
  {
  }

  // ---------------------------------------------------------------- the radices are determined

  lemma PrimesArePrime()
    ensures IsPrime(2) && IsPrime(3) && IsPrime(5) && IsPrime(7) && IsPrime(11)
  {
    forall d | 2 <= d < 11
      ensures !Divides(d, 11)
    {
      assert d in {2, 3, 4, 5, 6, 7, 8, 9, 10};
    }
  }

  /** A prime that is not in the list and does not divide the rest does not divide the product. */
  lemma {:induction false} NotDividing(p: nat, radices: seq<nat>, rest: nat)
    requires IsPrime(p) && rest % p != 0
    requires forall i :: 0 <= i < |radices| ==> IsPrime(radices[i]) && radices[i] != p
    ensures (ProductOf(radices) * rest) % p != 0
  {
    assert p > 1;
    hide IsPrime;
    if radices != [] {
      assert IsPrime(radices[0]) && radices[0] != p;
      var q, m := radices[0], ProductOf(radices[1..]) * rest;
      NotDividing(p, radices[1..], rest);
      LengthOfTail(q, ProductOf(radices[1..]), rest);
      assert ProductOf(radices) * rest == m * q;
      hide ProductOf;
      NotDividingProduct(p, q, m);
    }
  }

  lemma NotDividingProduct(p: int, q: int, m: int)
    requires IsPrime(p) && IsPrime(q) && p != q && m % p != 0
    ensures (m * q) % p != 0
  {
    if Divides(p, m * q) {
      EuclidsLemma(p, m, q);
      PrimeDividesPrime(p, q);
    }
  }

  /** A list of factors that starts at prime number pi at the earliest. */
  ghost predicate From(pi: nat, radices: seq<nat>) {
    && Ascending(radices)
    && forall i :: 0 <= i < |radices| ==> radices[i] in {2, 3, 5, 7, 11} && pi < |PRIMES| && radices[i] >= PRIMES[pi]
  }

  /** The source's stages are those of any list of factors that is ascending and complete. */
  lemma {:induction false} ScheduleIsStages(pi: nat, residue: nat, stride: nat, radices: seq<nat>, rest: nat)
    requires pi <= |PRIMES| && residue > 0 && From(pi, radices) && Leaves(residue, radices, rest)
    ensures Schedule(pi, residue, stride) == Stages(radices, stride) && Radices(pi, residue) == radices
    decreases |PRIMES| - pi, residue
  {
    PrimesArePrime();
    if pi < |PRIMES| {
      var p := PRIMES[pi];
      hide IsPrime;
      if radices != [] && radices[0] == p {
        var tail, q := radices[1..], ProductOf(radices[1..]) * rest;
        FirstFactor(residue, radices, rest);
        ScheduleIsStages(pi, q, stride * p, tail, rest);
      } else {
        if radices != [] {
          assert radices[0] > p;
        }
        assert forall i :: 0 <= i < |radices| ==> radices[i] != p;
        NotDividing(p, radices, rest);
        ScheduleIsStages(pi + 1, residue, stride, radices, rest);
      }
    } else {
      assert radices == [];
    }
  }

  lemma FirstFactor(residue: nat, radices: seq<nat>, rest: nat)
    requires radices != [] && radices[0] > 1 && residue == ProductOf(radices) * rest > 0
    ensures var p, q := radices[0], ProductOf(radices[1..]) * rest;
            residue % p == 0 && residue / p == q && 0 < q < residue
  {
    var p, q := radices[0], ProductOf(radices[1..]) * rest;
    assert residue == (p * ProductOf(radices[1..])) * rest == p * q;
    DivModUnique(residue, p, q, 0);
    if q > 0 {
      MulMono(2, p, q);
    }
  }

  /** The radices of the source's stages. */
  function Radices(pi: nat, residue: nat): seq<nat>
    requires pi <= |PRIMES| && residue > 0
    decreases |PRIMES| - pi, residue
  {
    if pi == |PRIMES| then []
    else if residue % PRIMES[pi] == 0 then
      assert residue / PRIMES[pi] < residue;
      [PRIMES[pi]] + Radices(pi, residue / PRIMES[pi])
    else Radices(pi + 1, residue)
  }

  /** Every length has its list of factors. */
  lemma {:induction false} RadicesComplete(pi: nat, residue: nat)
    requires pi <= |PRIMES| && residue > 0
    ensures From(pi, Radices(pi, residue))
    ensures exists rest: nat :: IsComplete(pi, residue, Radices(pi, residue), rest)
    decreases |PRIMES| - pi, residue
  {
    hide IsComplete;
    var all := Radices(pi, residue);
    if pi == |PRIMES| {
      NothingLeft(residue);
    } else if residue % PRIMES[pi] == 0 {
      var q := residue / PRIMES[pi];
      assert q < residue;
      RadicesComplete(pi, q);
      var rest: nat :| IsComplete(pi, q, Radices(pi, q), rest);
      assert all[0] == PRIMES[pi] && all[1..] == Radices(pi, q);
      DividedOut(pi, residue, q, all, rest);
    } else {
      RadicesComplete(pi + 1, residue);
      var rest: nat :| IsComplete(pi + 1, residue, all, rest);
      NotDividedOut(pi, residue, all, rest);
    }
  }

  ghost predicate IsComplete(pi: nat, residue: nat, radices: seq<nat>, rest: nat) {
    && rest > 0 && residue == ProductOf(radices) * rest
    && forall k :: pi <= k < |PRIMES| ==> rest % PRIMES[k] != 0
  }

  lemma NothingLeft(residue: nat)
    requires residue > 0
    ensures IsComplete(|PRIMES|, residue, [], residue)
  {
  }

  lemma DividedOut(pi: nat, residue: nat, q: nat, all: seq<nat>, rest: nat)
    requires pi < |PRIMES| && residue % PRIMES[pi] == 0 && q == residue / PRIMES[pi]
    requires all != [] && all[0] == PRIMES[pi] && IsComplete(pi, q, all[1..], rest)
    ensures IsComplete(pi, residue, all, rest)
  {
    OneMoreFactor(residue, PRIMES[pi], q, all, rest);
  }

  lemma NotDividedOut(pi: nat, residue: nat, all: seq<nat>, rest: nat)
    requires pi < |PRIMES| && residue % PRIMES[pi] != 0 && IsComplete(pi + 1, residue, all, rest)
    ensures IsComplete(pi, residue, all, rest)
  {
    if rest % PRIMES[pi] == 0 {
      MultipleOfRest(ProductOf(all), rest, PRIMES[pi]);
    }
  }

  lemma OneMoreFactor(residue: nat, p: nat, q: nat, all: seq<nat>, rest: nat)
    requires p > 0 && residue % p == 0 && q == residue / p && all != [] && all[0] == p && q == ProductOf(all[1..]) * rest
    ensures residue == ProductOf(all) * rest
  {
    LengthOfTail(p, ProductOf(all[1..]), rest);
  }

  lemma MultipleOfRest(a: int, rest: int, p: int)
    requires p > 0 && rest % p == 0
    ensures (a * rest) % p == 0
  {
    var k := rest / p;
    assert a * rest == (a * k) * p by {
      assert rest == k * p;
    }
    DivModUnique(a * rest, p, a * k, 0);
  }

  lemma FactorsExist(n: nat)
    requires n > 0
    ensures SmallFactors(n, Radices(0, n))
  {
    RadicesComplete(0, n);
    var rest: nat :| IsComplete(0, n, Radices(0, n), rest);
    assert rest % PRIMES[0] != 0 && rest % PRIMES[1] != 0 && rest % PRIMES[2] != 0 && rest % PRIMES[3] != 0 && rest % PRIMES[4] != 0;
    assert Leaves(n, Radices(0, n), rest);
  }

  /** The factors of a length are determined, and the source runs one stage for each, the smallest at stride
      one, every next one at the product of those before. */
  lemma StagesOfFactors(n: nat, radices: seq<nat>)
    requires n > 0 && SmallFactors(n, radices)
    ensures Schedule(0, n, 1) == Stages(radices, 1) && radices == Radices(0, n)
  {
    var rest: nat :| Leaves(n, radices, rest);
    ScheduleIsStages(0, n, 1, radices, rest);
  }

  /** The transform in closed form: entry x is the sum over y of d(y) times the product of the kernels of the
      factors of n at the digits of x and y. */
  lemma TransformIsKernel(h: Kernels, n: nat, radices: seq<nat>, d: Vector, x: int)
    requires n > 0 && SmallFactors(n, radices) && 0 <= x < n
    ensures Transform(h, n, d)(x) == Sum(0, n, (y: int) => Times(d(y), KernelAt(h, radices, x, y)))
  {
    hide Schedule, Run, KernelAt;
    StagesOfFactors(n, radices);
    var rest: nat :| Leaves(n, radices, rest);
    RunIsKernel(h, radices, n, rest, d, x);
    SumCong(0, n, Summand(h, radices, d, x), (y: int) => Times(d(y), KernelAt(h, radices, x, y)));
  }

  /** At 154 = 2 * 7 * 11: 2 at stride 1, 7 at stride 2, 11 at stride 14. */
  lemma LengthOneFiftyFour()
    ensures SmallFactors(154, [2, 7, 11])
    ensures Schedule(0, 154, 1) == [StageSpec(2, 1), StageSpec(7, 2), StageSpec(11, 14)]
  {
    assert ProductOf([11]) == 11 * ProductOf([]);
    assert [7, 11][1..] == [11] && ProductOf([7, 11]) == 7 * ProductOf([11]);
    assert [2, 7, 11][1..] == [7, 11] && ProductOf([2, 7, 11]) == 2 * ProductOf([7, 11]);
    assert Leaves(154, [2, 7, 11], 1);
    StagesOfFactors(154, [2, 7, 11]);
    assert Stages([11], 14) == [StageSpec(11, 14)] + Stages([], 154);
    assert Stages([7, 11], 2) == [StageSpec(7, 2)] + Stages([11], 14);
    assert Stages([2, 7, 11], 1) == [StageSpec(2, 1)] + Stages([7, 11], 2);
  }
}
