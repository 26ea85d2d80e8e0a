/** The in-place VHT2 of core/src/shannon_prime.c, `sp_vht2_forward_f32`: for each of the primes
    2, 3, 5, 7, 11 and as long as it divides what is left of n, one stage of butterflies at the
    current stride. A length with a larger prime factor simply gets fewer stages. */
module Vht2 {
  import opened IntArith
  import opened Matrices
  import opened RealArith
  import opened Sums
  import opened Vht2Theory

  const PRIMES: seq<nat> := [2, 3, 5, 7, 11]

  /** The kernels of the source: symmetric, self-inverse, and for radix 2 the Hadamard pair scaled by s. */
  ghost predicate ValidKernels(h: Kernels, s: real) {
    && (forall i :: 0 <= i < |PRIMES| ==> SelfInverseKernel(PRIMES[i], h(PRIMES[i])))
    && h(2)(0, 0) == s && h(2)(0, 1) == s && h(2)(1, 0) == s && h(2)(1, 1) == -s
  }

  /** The stages the source runs when primes from index pi on are left, with `residue` still to factor. */
  function Schedule(pi: nat, residue: nat, stride: nat): seq<StageSpec>
    requires pi <= |PRIMES| && residue > 0
    decreases |PRIMES| - pi, residue
  {
    if pi == |PRIMES| then []
    else
      var p := PRIMES[pi];
      if residue % p == 0 then
        assert residue / p < residue;
        [StageSpec(p, stride)] + Schedule(pi, residue / p, stride * p)
      else Schedule(pi + 1, residue, stride)
  }

  ghost function Transform(h: Kernels, n: nat, d: Vector): Vector
    requires n > 0
  {
    ScheduleShape(0, n, 1, n);
    Run(h, Schedule(0, n, 1), 1, d)
  }

  /** The stages chain, use only the supported primes, and their blocks divide n. */
  lemma {:induction false} ScheduleShape(pi: nat, residue: nat, stride: nat, n: nat)
    requires pi <= |PRIMES| && residue > 0 && stride > 0 && n == stride * residue
    ensures Chained(Schedule(pi, residue, stride), stride)
    ensures forall i :: 0 <= i < |Schedule(pi, residue, stride)| ==> Schedule(pi, residue, stride)[i].p in PRIMES
    ensures Fits(Schedule(pi, residue, stride), n)
    decreases |PRIMES| - pi, residue
  {
    if pi < |PRIMES| {
      var p := PRIMES[pi];
      if residue % p == 0 {
        var rest := Schedule(pi, residue / p, stride * p);
        SplitResidue(n, stride, residue, p);
        ScheduleShape(pi, residue / p, stride * p, n);
        PrependStage(p, stride, rest, n, residue / p);
      } else {
        ScheduleShape(pi + 1, residue, stride, n);
      }
    }
  }

  lemma SplitResidue(n: nat, stride: nat, residue: nat, p: nat)
    requires p > 1 && stride > 0 && residue > 0 && residue % p == 0 && n == stride * residue
    ensures stride * p > 0 && 0 < residue / p < residue && n == (stride * p) * (residue / p)
  {
    var q := residue / p;
    assert residue == p * q;
    if q >= 1 {
      MulMono(2, p, q);
    }
    MulPos(stride, p);
    Reassociate(stride, p, q);
  }

  lemma Reassociate(a: int, b: int, c: int)
    ensures a * (b * c) == (a * b) * c
  {
  }

  lemma FirstBlocks(p: nat, stride: nat, n: nat, blocks: nat)
    requires p > 0 && stride > 0 && n == (stride * p) * blocks
    ensures IsBlocks(n, blocks, p, stride) && BlockDivides(n, StageSpec(p, stride)) && n == blocks * (p * stride)
  {
    var B := p * stride;
    assert stride * p == B && B * blocks == blocks * B;
    assert IsBlocks(n, blocks, p, stride);
  }

  lemma PrependStage(p: nat, stride: nat, rest: seq<StageSpec>, n: nat, blocks: nat)
    requires p in PRIMES && p > 0 && stride > 0 && Chained(rest, stride * p) && Fits(rest, n)
    requires forall i :: 0 <= i < |rest| ==> rest[i].p in PRIMES
    requires n == (stride * p) * blocks
    ensures var stages := [StageSpec(p, stride)] + rest;
            Chained(stages, stride) && Fits(stages, n) && forall i :: 0 <= i < |stages| ==> stages[i].p in PRIMES
  {
    var stages := [StageSpec(p, stride)] + rest;
    assert stages[1..] == rest;
    FirstBlocks(p, stride, n, blocks);
    hide IsBlocks;
    forall i | 0 <= i < |stages|
      ensures BlockDivides(n, stages[i]) && stages[i].p in PRIMES
    {
      if i > 0 {
        assert stages[i] == rest[i - 1];
      }
    }
  }

  // ---------------------------------------------------------------- main theorems

  lemma ScheduleKernels(h: Kernels, s: real, n: nat)
    requires n > 0 && ValidKernels(h, s)
    ensures KernelsSelfInverse(h, Schedule(0, n, 1))
  {
    hide SelfInverseKernel;
    ScheduleShape(0, n, 1, n);
  }

  /** VHT2(VHT2(x)) = x, for every length. */
  lemma TransformInvolution(h: Kernels, s: real, n: nat, d: Vector)
    requires n > 0 && ValidKernels(h, s)
    ensures SameVector(Transform(h, n, Transform(h, n, d)), d)
  {
    hide ValidKernels, KernelsSelfInverse;
    ScheduleShape(0, n, 1, n);
    ScheduleKernels(h, s, n);
    RunInvolution(h, Schedule(0, n, 1), 1, d);
  }

  /** VHT2 keeps the sum of squares, for every length. */
  lemma TransformKeepsEnergy(h: Kernels, s: real, n: nat, d: Vector)
    requires n > 0 && ValidKernels(h, s)
    ensures Energy(n, Transform(h, n, d)) == Energy(n, d)
  {
    hide ValidKernels, KernelsSelfInverse;
    ScheduleShape(0, n, 1, n);
    ScheduleKernels(h, s, n);
    RunKeepsEnergy(h, Schedule(0, n, 1), 1, d, n);
  }

  lemma TransformLinear(h: Kernels, n: nat, c: real, d: Vector, e: Vector, f: Vector)
    requires n > 0 && IsCombination(f, d, c, e)
    ensures IsCombination(Transform(h, n, f), Transform(h, n, d), c, Transform(h, n, e))
  {
    ScheduleShape(0, n, 1, n);
    RunLinear(h, Schedule(0, n, 1), 1, c, d, e, f);
  }

  // ---------------------------------------------------------------- locality

  ghost predicate AgreeBelow(n: nat, d: Vector, e: Vector) {
    forall x :: 0 <= x < n ==> d(x) == e(x)
  }

  /** On [0, n) a stage whose block divides n reads only [0, n). */
  lemma StageLocal(h: Kernels, p: nat, stride: nat, n: nat, blocks: nat, d: Vector, e: Vector)
    requires p > 0 && stride > 0 && IsBlocks(n, blocks, p, stride) && AgreeBelow(n, d, e)
    ensures AgreeBelow(n, Stage(h, p, stride, d), Stage(h, p, stride, e))
  {
    hide Stage;
    forall x | 0 <= x < n
      ensures Stage(h, p, stride, d)(x) == Stage(h, p, stride, e)(x)
    {
      forall m | 0 <= m < p
        ensures Along(d, x, stride, p)(m) == Along(e, x, stride, p)(m)
      {
        MoveInRange(x, stride, p, m, blocks);
      }
      ApplyCong(p, h(p), Along(d, x, stride, p), Along(e, x, stride, p), Digit(x, stride, p));
      StageAt(h, p, stride, d, x);
      StageAt(h, p, stride, e, x);
    }
  }

  lemma MoveInRange(x: int, stride: nat, p: nat, m: int, blocks: nat)
    requires p > 0 && stride > 0 && 0 <= m < p && 0 <= x < blocks * (p * stride)
    ensures 0 <= Move(x, stride, p, m) < blocks * (p * stride)
  {
    var y, B := Move(x, stride, p, m), stride * p;
    MulPos(stride, p);
    DigitOfMove(x, stride, p, m);
    assert B == p * stride;
    QuotientBelow(x, B, blocks);
    assert y == x / B * B + y % B;
    DigitsInRange(x / B, y % B, B, blocks);
  }

  lemma {:induction false} RunLocal(h: Kernels, stages: seq<StageSpec>, stride: nat, n: nat, d: Vector, e: Vector)
    requires Chained(stages, stride) && Fits(stages, n) && AgreeBelow(n, d, e)
    ensures AgreeBelow(n, Run(h, stages, stride, d), Run(h, stages, stride, e))
    decreases |stages|
  {
    hide Stage, IsBlocks;
    if stages != [] {
      var p, rest := stages[0].p, stages[1..];
      forall i | 0 <= i < |rest|
        ensures BlockDivides(n, rest[i])
      {
        assert rest[i] == stages[i + 1];
      }
      assert BlockDivides(n, stages[0]);
      var blocks: nat :| IsBlocks(n, blocks, stages[0].p, stages[0].stride);
      StageLocal(h, p, stride, n, blocks, d, e);
      RunLocal(h, rest, stride * p, n, Stage(h, p, stride, d), Stage(h, p, stride, e));
    }
  }

  lemma TransformLocal(h: Kernels, n: nat, d: Vector, e: Vector)
    requires n > 0 && AgreeBelow(n, d, e)
    ensures AgreeBelow(n, Transform(h, n, d), Transform(h, n, e))
  {
    ScheduleShape(0, n, 1, n);
    RunLocal(h, Schedule(0, n, 1), 1, n, d, e);
  }

  /** Two calls of `Forward` restore the array: `once` is what the first call leaves of `d`, `twice`
      what the second leaves of `once`. */
  lemma InPlaceRoundTrip(h: Kernels, s: real, n: nat, d: Vector, once: Vector, twice: Vector)
    requires n > 0 && ValidKernels(h, s)
    requires AgreeBelow(n, once, Transform(h, n, d)) && AgreeBelow(n, twice, Transform(h, n, once))
    ensures AgreeBelow(n, twice, d)
  {
    hide Transform, ValidKernels;
    TransformLocal(h, n, once, Transform(h, n, d));
    TransformInvolution(h, s, n, d);
  }

  // ---------------------------------------------------------------- lengths that are left alone

  /** No stage is run exactly when none of the remaining primes divides what is left. */
  lemma {:induction false} ScheduleEmpty(pi: nat, residue: nat, stride: nat)
    requires pi <= |PRIMES| && residue > 0
    ensures Schedule(pi, residue, stride) == [] <==> forall k :: pi <= k < |PRIMES| ==> residue % PRIMES[k] != 0
    decreases |PRIMES| - pi
  {
    if pi < |PRIMES| && residue % PRIMES[pi] != 0 {
      ScheduleEmpty(pi + 1, residue, stride);
    }
  }

  /** Row 0 of each kernel is constant, as cos 0 + sin 0 over the root of p is. */
  ghost predicate FlatKernels(h: Kernels) {
    forall i, k :: 0 <= i < |PRIMES| && 0 <= k < PRIMES[i] ==> h(PRIMES[i])(0, k) == h(PRIMES[i])(0, 0)
  }

  /** The first unit vector. */
  ghost function FirstUnit(): Vector {
    (x: int) => if x == 0 then 1.0 else 0.0
  }

  ghost predicate SupportedBelow(n: int, d: Vector) {
    forall x: int :: !(0 <= x < n) ==> d(x) == 0.0
  }

  /** A stage spreads a vector that lives below its stride over one block, and scales its entry at zero. */
  lemma StageSpreads(h: Kernels, p: nat, stride: nat, d: Vector)
    requires p > 0 && stride > 0 && SupportedBelow(stride, d)
    ensures stride * p > 0 && SupportedBelow(stride * p, Stage(h, p, stride, d))
    ensures Stage(h, p, stride, d)(0) == d(0) * h(p)(0, 0)
  {
    hide Dot, Move, Digit, Stage;
    MulPos(stride, p);
    forall x: int | !(0 <= x < stride * p)
      ensures Stage(h, p, stride, d)(x) == 0.0
    {
      StageAt(h, p, stride, d, x);
      forall m | 0 <= m < p
        ensures Along(d, x, stride, p)(m) == 0.0
      {
        OutsideFirstBlock(x, stride, p, m);
      }
      DotZero(p, Along(d, x, stride, p), Row(h(p), Digit(x, stride, p)));
    }
    StageAt(h, p, stride, d, 0);
    MovesOfZero(stride, p);
    forall m | 0 < m < p
      ensures Along(d, 0, stride, p)(m) == 0.0
    {
      MulMono(1, m, stride);
    }
    DotSingle(p, 0, Along(d, 0, stride, p), Row(h(p), 0));
  }

  lemma OutsideFirstBlock(x: int, stride: nat, p: nat, m: int)
    requires p > 0 && stride > 0 && 0 <= m < p && !(0 <= x < stride * p)
    ensures !(0 <= Move(x, stride, p, m) < stride)
  {
    hide Move, Digit;
    DigitOfMove(x, stride, p, m);
    var y, B := Move(x, stride, p, m), stride * p;
    MulMono(1, p, stride);
    MulPos(stride, p);
    assert x == (x / B) * B + x % B;
    if 0 <= y < stride {
      DivModUnique(y, B, 0, y);
    }
  }

  lemma MovesOfZero(stride: nat, p: nat)
    requires p > 0 && stride > 0
    ensures Digit(0, stride, p) == 0
    ensures forall m :: Move(0, stride, p, m) == m * stride
  {
    DivModUnique(0, stride, 0, 0);
    DivModUnique(0, p, 0, 0);
  }

  /** The product of the corner entries of the kernels of a list of stages. */
  ghost function Corner(h: Kernels, stages: seq<StageSpec>): real {
    if stages == [] then 1.0 else h(stages[0].p)(0, 0) * Corner(h, stages[1..])
  }

  lemma {:induction false} RunAtZero(h: Kernels, stages: seq<StageSpec>, stride: nat, d: Vector)
    requires Chained(stages, stride) && SupportedBelow(stride, d)
    ensures Run(h, stages, stride, d)(0) == d(0) * Corner(h, stages)
    decreases |stages|
  {
    hide Stage, SupportedBelow;
    if stages != [] {
      var p := stages[0].p;
      var e := Stage(h, p, stride, d);
      StageSpreads(h, p, stride, d);
      RunAtZero(h, stages[1..], stride * p, e);
      Regroup(d(0), h(p)(0, 0), Corner(h, stages[1..]));
    }
  }

  lemma Regroup(a: real, b: real, c: real)
    ensures (a * b) * c == a * (b * c)
  {
  }

  /** A flat self-inverse kernel has a corner whose square is at most one half. */
  lemma CornerIsSmall(h: Kernels, i: nat)
    requires i < |PRIMES| && SelfInverseKernel(PRIMES[i], h(PRIMES[i])) && FlatKernels(h)
    ensures h(PRIMES[i])(0, 0) * h(PRIMES[i])(0, 0) <= 0.5
  {
    hide Product, Dot;
    var p, H := PRIMES[i], h(PRIMES[i]);
    var c := H(0, 0);
    var square := c * c;
    SquareSign(c, square);
    ProductIsDot(p, H, H, 0, 0);
    forall k | 0 <= k < p
      ensures H(0, k) == c && H(k, 0) == c
    {
    }
    ConstantDot(p, Row(H, 0), Column(H, 0), c, square);
    HalfOf(p as real, square);
  }

  lemma HalfOf(p: real, square: real)
    requires p >= 2.0 && square >= 0.0 && p * square == 1.0
    ensures square <= 0.5
  {
    ScaleMono(square, 2.0, p);
  }

  lemma ConstantDot(n: nat, u: int -> real, w: int -> real, c: real, square: real)
    requires square == c * c && forall k :: 0 <= k < n ==> u(k) == c && w(k) == c
    ensures Dot(n, u, w) == n as real * square
  {
    var f := (k: int) => square;
    DotSum(n, u, w, f);
    ConstantSum(n, f, square);
  }

  lemma {:induction false} ConstantSum(n: nat, f: int -> real, c: real)
    requires forall k :: 0 <= k < n ==> f(k) == c
    ensures Sum(0, n, f) == n as real * c
  {
    if n > 0 {
      ConstantSum(n - 1, f, c);
    }
  }

  lemma {:induction false} CornersMultiply(h: Kernels, stages: seq<StageSpec>)
    requires forall i :: 0 <= i < |stages| ==> h(stages[i].p)(0, 0) * h(stages[i].p)(0, 0) <= 0.5
    ensures Corner(h, stages) * Corner(h, stages) <= 1.0
    ensures stages != [] ==> Corner(h, stages) * Corner(h, stages) <= 0.5
  {
    if stages != [] {
      CornersMultiply(h, stages[1..]);
      var a, b := h(stages[0].p)(0, 0), Corner(h, stages[1..]);
      var c := Corner(h, stages);
      SquareOfProduct(a, b, c, a * a, b * b, c * c);
    }
  }

  lemma SquareOfProduct(a: real, b: real, ab: real, aa: real, bb: real, square: real)
    requires ab == a * b && aa == a * a <= 0.5 && bb == b * b <= 1.0 && square == ab * ab
    ensures square <= 0.5
  {
    SquareSign(a, aa);
    SquareSwap(a, b, ab, aa, bb);
    ScaleMono(aa, bb, 1.0);
    assert aa * 1.0 == aa;
  }

  lemma SquareSwap(a: real, b: real, ab: real, aa: real, bb: real)
    requires ab == a * b && aa == a * a && bb == b * b
    ensures ab * ab == aa * bb
  {
    assert ab * ab == a * (b * ab);
    assert b * ab == a * bb;
    assert a * (a * bb) == aa * bb;
  }

  lemma NotOne(c: real)
    requires c * c <= 0.5
    ensures c != 1.0
  {
  }

  /** The transform leaves every vector of length n alone exactly when none of 2, 3, 5, 7 and 11 divides n. A
      larger prime factor alone does not protect the data. */
  lemma UntouchedIff(h: Kernels, s: real, n: nat)
    requires n > 0 && ValidKernels(h, s) && FlatKernels(h)
    ensures (forall d: Vector :: AgreeBelow(n, Transform(h, n, d), d))
            <==> (forall k :: 0 <= k < |PRIMES| ==> n % PRIMES[k] != 0)
  {
    hide Stage, SelfInverseKernel, FlatKernels;
    ScheduleEmpty(0, n, 1);
    ScheduleShape(0, n, 1, n);
    if Schedule(0, n, 1) != [] {
      FirstUnitMoves(h, s, n);
      assert !AgreeBelow(n, Transform(h, n, FirstUnit()), FirstUnit());
    }
  }

  /** Where a stage is run, the first unit vector changes. */
  lemma FirstUnitMoves(h: Kernels, s: real, n: nat)
    requires n > 0 && ValidKernels(h, s) && FlatKernels(h) && Schedule(0, n, 1) != []
    ensures Transform(h, n, FirstUnit())(0) == Corner(h, Schedule(0, n, 1)) != 1.0
  {
    hide Stage, SelfInverseKernel, FlatKernels, Corner;
    var stages := Schedule(0, n, 1);
    ScheduleShape(0, n, 1, n);
    RunAtZero(h, stages, 1, FirstUnit());
    forall i | 0 <= i < |stages|
      ensures h(stages[i].p)(0, 0) * h(stages[i].p)(0, 0) <= 0.5
    {
      assert stages[i].p in PRIMES;
      var j :| 0 <= j < |PRIMES| && PRIMES[j] == stages[i].p;
      CornerIsSmall(h, j);
    }
    CornersMultiply(h, stages);
    NotOne(Corner(h, stages));
  }

  /** At 26 = 2 * 13 the stage for 2 is run: the first unit vector becomes s at zero. */
  lemma LengthTwentySix(h: Kernels, s: real)
    requires ValidKernels(h, s) && FlatKernels(h)
    ensures Schedule(0, 26, 1) == [StageSpec(2, 1)]
    ensures Transform(h, 26, FirstUnit())(0) == s != FirstUnit()(0)
  {
    hide Stage, SelfInverseKernel, FlatKernels, Run;
    assert Schedule(1, 13, 2) == [] by {
      ScheduleEmpty(1, 13, 2);
    }
    assert Schedule(0, 13, 2) == Schedule(1, 13, 2);
    FirstUnitMoves(h, s, 26);
    assert Corner(h, [StageSpec(2, 1)][1..]) == 1.0;
  }

  // ---------------------------------------------------------------- the in-place loops

  /** Index of digit k in the group that starts at base. */
  function Pos(base: int, stride: int, k: int): int {
    base + k * stride
  }

  ghost predicate GroupInBounds(length: nat, base: nat, p: nat, stride: nat) {
    stride > 0 && forall k :: 0 <= k < p ==> 0 <= Pos(base, stride, k) < length
  }

  lemma PosInjective(base: int, stride: int, k: int, l: int)
    requires stride > 0
    ensures Pos(base, stride, k) == Pos(base, stride, l) <==> k == l
  {
    if k < l {
      MulMono(1, l - k, stride);
    } else if l < k {
      MulMono(1, k - l, stride);
    }
  }

  /** The values of one group. */
  ghost function GroupValues(d: Vector, base: int, stride: int): Vector {
    (m: int) => d(Pos(base, stride, m))
  }

  /** The specialised radix-2 butterfly. */
  method Butterfly(data: array<real>, base: nat, stride: nat, s: real, h: Kernels)
    requires GroupInBounds(data.Length, base, 2, stride)
    requires h(2)(0, 0) == s && h(2)(0, 1) == s && h(2)(1, 0) == s && h(2)(1, 1) == -s
    modifies data
    ensures forall k :: 0 <= k < 2 ==>
      data[Pos(base, stride, k)] == Apply(2, h(2), GroupValues(old(Values(data)), base, stride))(k)
    ensures forall x :: 0 <= x < data.Length && (forall k :: 0 <= k < 2 ==> x != Pos(base, stride, k)) ==>
      data[x] == old(data[x])
  {
    hide Apply, Times;
    ghost var u := GroupValues(Values(data), base, stride);
    assert Pos(base, stride, 0) == base && Pos(base, stride, 1) == base + stride;
    var x0, x1 := data[base], data[base + stride];
    ButterflyValues(h(2), u, s);
    data[base] := Times(x0 + x1, s);
    data[base + stride] := Times(x0 - x1, s);
  }

  lemma ButterflyValues(H: Mat, u: Vector, s: real)
    requires H(0, 0) == s && H(0, 1) == s && H(1, 0) == s && H(1, 1) == -s
    ensures Apply(2, H, u)(0) == Times(u(0) + u(1), s)
    ensures Apply(2, H, u)(1) == Times(u(0) - u(1), s)
  {
    hide Apply;
    TwoTerms(H, u, 0);
    TwoTerms(H, u, 1);
    var x0, x1 := u(0), u(1);
    assert (x0 + x1) * s == x0 * s + x1 * s;
    assert (x0 - x1) * s == x0 * s + x1 * -s;
  }

  lemma TwoTerms(H: Mat, u: Vector, k: int)
    ensures Apply(2, H, u)(k) == u(0) * H(k, 0) + u(1) * H(k, 1)
  {
    var f := (j: int) => u(j) * Row(H, k)(j);
    assert Sum(0, 2, f) == Sum(0, 1, f) + f(1);
    assert Sum(0, 1, f) == Sum(0, 0, f) + f(0);
  }

  /** The generic group: gather p values, write back the kernel times them. */
  method HartleyGroup(data: array<real>, base: nat, p: nat, stride: nat, h: Kernels)
    requires GroupInBounds(data.Length, base, p, stride)
    modifies data
    ensures forall k :: 0 <= k < p ==>
      data[Pos(base, stride, k)] == Apply(p, h(p), GroupValues(old(Values(data)), base, stride))(k)
    ensures forall x :: 0 <= x < data.Length && (forall k :: 0 <= k < p ==> x != Pos(base, stride, k)) ==>
      data[x] == old(data[x])
  {
    ghost var u := GroupValues(Values(data), base, stride);
    var gathered := Gather(data, base, p, stride);
    Scatter(data, base, p, stride, h, gathered, u);
  }

  method Gather(data: array<real>, base: nat, p: nat, stride: nat) returns (gathered: array<real>)
    requires GroupInBounds(data.Length, base, p, stride)
    ensures fresh(gathered) && gathered.Length == p
    ensures forall m :: 0 <= m < p ==> gathered[m] == GroupValues(Values(data), base, stride)(m)
  {
    hide Pos;
    gathered := new real[p];
    for k := 0 to p
      invariant forall m :: 0 <= m < k ==> gathered[m] == GroupValues(Values(data), base, stride)(m)
    {
      gathered[k] := data[Pos(base, stride, k)];
    }
  }

  method Scatter(data: array<real>, base: nat, p: nat, stride: nat, h: Kernels, gathered: array<real>, ghost u: Vector)
    requires GroupInBounds(data.Length, base, p, stride) && data != gathered
    requires gathered.Length == p && forall m :: 0 <= m < p ==> gathered[m] == u(m)
    modifies data
    ensures forall k :: 0 <= k < p ==> data[Pos(base, stride, k)] == Apply(p, h(p), u)(k)
    ensures forall x :: 0 <= x < data.Length && (forall k :: 0 <= k < p ==> x != Pos(base, stride, k)) ==>
      data[x] == old(data[x])
  {
    hide Pos, Apply;
    for k := 0 to p
      invariant forall l :: 0 <= l < k ==> data[Pos(base, stride, l)] == Apply(p, h(p), u)(l)
      invariant forall x :: 0 <= x < data.Length && (forall l :: 0 <= l < p ==> x != Pos(base, stride, l)) ==>
        data[x] == old(data[x])
    {
      var sum := KernelRow(h, p, k, gathered, u);
      forall l | 0 <= l < k
        ensures Pos(base, stride, l) != Pos(base, stride, k)
      {
        PosInjective(base, stride, l, k);
      }
      data[Pos(base, stride, k)] := sum;
    }
  }

  method KernelRow(h: Kernels, p: nat, k: nat, gathered: array<real>, ghost u: Vector) returns (sum: real)
    requires gathered.Length == p && forall m :: 0 <= m < p ==> gathered[m] == u(m)
    ensures sum == Apply(p, h(p), u)(k)
  {
    sum := 0.0;
    for m := 0 to p
      invariant sum == Dot(m, u, Row(h(p), k))
    {
      sum := sum + h(p)(k, m) * gathered[m];
    }
  }

  /** The indices already rewritten: whole blocks below i, and in the current block low parts below j. */
  ghost predicate Done(x: int, i: int, j: int, p: nat, stride: nat)
    requires stride > 0
  {
    x < i || (x < i + p * stride && x % stride < j)
  }

  /** The members of group (b, j) are exactly the indices of block b with low part j. */
  lemma GroupMembers(p: nat, stride: nat, b: nat, j: nat, base: nat, x: int)
    requires p > 0 && stride > 0 && j < stride && base == b * (p * stride) + j
    ensures (base - j <= x < base - j + p * stride && x % stride == j)
            <==> (exists k :: 0 <= k < p && x == Pos(base, stride, k))
  {
    if base - j <= x < base - j + p * stride && x % stride == j {
      var k := MemberDigit(p, stride, b, j, base, x);
    }
    if k :| 0 <= k < p && x == Pos(base, stride, k) {
      MemberInBlock(p, stride, b, j, base, k);
    }
  }

  lemma MemberDigit(p: nat, stride: nat, b: nat, j: nat, base: nat, x: int) returns (k: int)
    requires p > 0 && stride > 0 && j < stride && base == b * (p * stride) + j
    requires base - j <= x < base - j + p * stride && x % stride == j
    ensures 0 <= k < p && x == Pos(base, stride, k)
  {
    var q := x / stride;
    assert x == q * stride + j;
    assert base == (b * p) * stride + j;
    k := q - b * p;
    assert k * stride == x - base;
    if k < 0 {
      MulMono(k, -1, stride);
    }
    if k >= p {
      MulMono(p, k, stride);
    }
  }

  lemma MemberInBlock(p: nat, stride: nat, b: nat, j: nat, base: nat, k: int)
    requires p > 0 && stride > 0 && j < stride && base == b * (p * stride) + j && 0 <= k < p
    ensures base - j <= Pos(base, stride, k) < base - j + p * stride && Pos(base, stride, k) % stride == j
  {
    var x := Pos(base, stride, k);
    assert x == (b * p + k) * stride + j;
    DivModUnique(x, stride, b * p + k, j);
    MulMono(0, k, stride);
    MulMono(k, p - 1, stride);
    assert (p - 1) * stride == p * stride - stride;
  }

  /** What a group method leaves in group (b, j) is the stage's output there. */
  lemma GroupIsStage(h: Kernels, p: nat, stride: nat, d: Vector, e: Vector, b: nat, j: nat, base: nat, k: int)
    requires p > 0 && stride > 0 && j < stride && 0 <= k < p && base == b * (p * stride) + j
    requires forall m :: 0 <= m < p ==> e(Pos(base, stride, m)) == d(Pos(base, stride, m))
    ensures Apply(p, h(p), GroupValues(e, base, stride))(k) == Stage(h, p, stride, d)(Pos(base, stride, k))
  {
    hide Apply, Stage, Move, Digit, Pos;
    assert base == GroupAt(p, stride, b, j, 0);
    forall m | 0 <= m < p
      ensures Move(base, stride, p, m) == Pos(base, stride, m)
    {
      GroupIndex(p, stride, b, j, m);
      PosIsGroupAt(p, stride, b, j, base, m);
    }
    StageAlong(h, p, stride, d, base, k);
    ApplyCong(p, h(p), GroupValues(e, base, stride), Along(d, base, stride, p), k);
  }

  lemma PosIsGroupAt(p: nat, stride: nat, b: nat, j: nat, base: nat, k: int)
    requires base == b * (p * stride) + j
    ensures Pos(base, stride, k) == GroupAt(p, stride, b, j, k)
  {
  }

  /** One block: all groups (b, j), j < stride. The butterfly is used for radix 2 where the caller has one. */
  method StageBlock(data: array<real>, p: nat, stride: nat, b: nat, h: Kernels, s: real, butterfly: bool, ghost d: Vector)
    requires p > 0 && stride > 0 && ValidKernels(h, s)
    requires b * (p * stride) + p * stride <= data.Length
    requires forall x :: 0 <= x < data.Length ==>
      data[x] == if x < b * (p * stride) then Stage(h, p, stride, d)(x) else d(x)
    modifies data
    ensures forall x :: 0 <= x < data.Length ==>
      data[x] == if x < b * (p * stride) + p * stride then Stage(h, p, stride, d)(x) else d(x)
  {
    hide ValidKernels, Stage, Pos, Done;
    var i := b * (p * stride);
    NothingDone(i, p, stride);
    for j := 0 to stride
      invariant forall x :: 0 <= x < data.Length ==>
        data[x] == if Done(x, i, j, p, stride) then Stage(h, p, stride, d)(x) else d(x)
    {
      StageGroup(data, p, stride, b, j, h, s, butterfly, d);
    }
    BlockDone(i, p, stride);
  }

  /** What group j adds is its members, which lie in the block. */
  lemma GroupDone(p: nat, stride: nat, b: nat, j: nat, base: nat, x: int)
    requires p > 0 && stride > 0 && j < stride && base == b * (p * stride) + j
    ensures var i := b * (p * stride);
            && (Done(x, i, j, p, stride) ==> Done(x, i, j + 1, p, stride))
            && (Done(x, i, j + 1, p, stride) && !Done(x, i, j, p, stride) <==> exists k :: 0 <= k < p && x == Pos(base, stride, k))
    ensures (exists k :: 0 <= k < p && x == Pos(base, stride, k)) ==> 0 <= x < b * (p * stride) + p * stride
  {
    hide Pos;
    GroupMembers(p, stride, b, j, base, x);
    MulPos(p, stride);
    MulMono(0, b, p * stride);
  }

  lemma NothingDone(i: int, p: nat, stride: nat)
    requires stride > 0
    ensures forall x :: Done(x, i, 0, p, stride) <==> x < i
  {
  }

  lemma BlockDone(i: int, p: nat, stride: nat)
    requires p > 0 && stride > 0
    ensures forall x :: Done(x, i, stride, p, stride) <==> x < i + p * stride
  {
    MulPos(p, stride);
  }

  /** One group of a block. */
  method StageGroup(data: array<real>, p: nat, stride: nat, b: nat, j: nat, h: Kernels, s: real, butterfly: bool, ghost d: Vector)
    requires p > 0 && j < stride && ValidKernels(h, s)
    requires b * (p * stride) + p * stride <= data.Length
    requires forall x :: 0 <= x < data.Length ==>
      data[x] == if Done(x, b * (p * stride), j, p, stride) then Stage(h, p, stride, d)(x) else d(x)
    modifies data
    ensures forall x :: 0 <= x < data.Length ==>
      data[x] == if Done(x, b * (p * stride), j + 1, p, stride) then Stage(h, p, stride, d)(x) else d(x)
  {
    hide ValidKernels, Stage, Pos, Apply, Done;
    var i := b * (p * stride);
    var base := i + j;
    ghost var e := Values(data);
    forall k | 0 <= k < p
      ensures 0 <= Pos(base, stride, k) < data.Length
      ensures e(Pos(base, stride, k)) == d(Pos(base, stride, k))
    {
      GroupDone(p, stride, b, j, base, Pos(base, stride, k));
    }
    if p == 2 && butterfly {
      RadixTwo(h, s);
      Butterfly(data, base, stride, s, h);
    } else {
      HartleyGroup(data, base, p, stride, h);
    }
    forall x | 0 <= x < data.Length
      ensures data[x] == if Done(x, i, j + 1, p, stride) then Stage(h, p, stride, d)(x) else d(x)
    {
      GroupDone(p, stride, b, j, base, x);
      if k :| 0 <= k < p && x == Pos(base, stride, k) {
        GroupIsStage(h, p, stride, d, e, b, j, base, k);
      }
    }
  }

  lemma RadixTwo(h: Kernels, s: real)
    requires ValidKernels(h, s)
    ensures h(2)(0, 0) == s && h(2)(0, 1) == s && h(2)(1, 0) == s && h(2)(1, 1) == -s
  {
  }

  method StageInPlace(data: array<real>, p: nat, stride: nat, h: Kernels, s: real, butterfly: bool, ghost blocks: nat)
    requires p > 0 && stride > 0 && ValidKernels(h, s) && data.Length == blocks * (p * stride)
    modifies data
    ensures AgreeBelow(data.Length, Values(data), Stage(h, p, stride, old(Values(data))))
  {
    hide ValidKernels, Stage;
    ghost var d := Values(data);
    var b, i := 0, 0;
    while i < data.Length
      invariant 0 <= b <= blocks && i == b * (p * stride)
      invariant forall x :: 0 <= x < data.Length ==> data[x] == if x < i then Stage(h, p, stride, d)(x) else d(x)
      decreases blocks - b
    {
      NextBlock(b, blocks, p * stride);
      StageBlock(data, p, stride, b, h, s, butterfly, d);
      b, i := b + 1, i + p * stride;
    }
  }

  lemma NextBlock(b: nat, blocks: nat, B: nat)
    requires b * B < blocks * B
    ensures b < blocks && b * B + B == (b + 1) * B <= blocks * B
  {
    if b >= blocks {
      MulMono(blocks, b, B);
    }
    MulMono(b + 1, blocks, B);
  }

  /** `sp_vht2_forward_f32`: the array ends up holding the transform of what it held. */
  method Forward(data: array<real>, h: Kernels, s: real)
    requires ValidKernels(h, s)
    modifies data
    ensures data.Length > 0 ==> AgreeBelow(data.Length, Values(data), Transform(h, data.Length, old(Values(data))))
  {
    hide ValidKernels, Run, Stage, Schedule, Chained;
    var n := data.Length;
    if n == 0 {
      return;
    }
    ghost var d := Values(data);
    ScheduleShape(0, n, 1, n);
    var stride, residue, pi := 1, n, 0;
    while pi < |PRIMES|
      invariant 0 <= pi <= |PRIMES| && residue > 0 && stride > 0 && n == stride * residue
      invariant Chained(Schedule(pi, residue, stride), stride)
      invariant AgreeBelow(n, Run(h, Schedule(pi, residue, stride), stride, Values(data)), Transform(h, n, d))
      decreases |PRIMES| - pi, residue
    {
      var p := PRIMES[pi];
      if residue % p == 0 {
        ghost var before, stages := Values(data), Schedule(pi, residue, stride);
        SplitResidue(n, stride, residue, p);
        FirstBlocks(p, stride, n, residue / p);
        StageInPlace(data, p, stride, h, s, true, residue / p);
        OneStage(h, pi, residue, stride, n, before, Values(data));
        residue, stride := residue / p, stride * p;
      } else {
        SkipPrime(pi, residue, stride);
        pi := pi + 1;
      }
    }
    EmptyRun(h, residue, stride, Values(data));
  }

  lemma SkipPrime(pi: nat, residue: nat, stride: nat)
    requires pi < |PRIMES| && residue > 0 && residue % PRIMES[pi] != 0
    ensures Schedule(pi, residue, stride) == Schedule(pi + 1, residue, stride)
  {
  }

  lemma EmptyRun(h: Kernels, residue: nat, stride: nat, d: Vector)
    requires residue > 0 && Chained(Schedule(|PRIMES|, residue, stride), stride)
    ensures Run(h, Schedule(|PRIMES|, residue, stride), stride, d) == d
  {
  }

  /** Running the first stage of a schedule on the array leaves the rest of the schedule to run. */
  lemma OneStage(h: Kernels, pi: nat, residue: nat, stride: nat, n: nat, d: Vector, e: Vector)
    requires pi < |PRIMES| && residue > 0 && stride > 0 && n == stride * residue && residue % PRIMES[pi] == 0
    requires AgreeBelow(n, e, Stage(h, PRIMES[pi], stride, d))
    ensures residue / PRIMES[pi] > 0 && stride * PRIMES[pi] > 0
    ensures Chained(Schedule(pi, residue, stride), stride)
    ensures Chained(Schedule(pi, residue / PRIMES[pi], stride * PRIMES[pi]), stride * PRIMES[pi])
    ensures AgreeBelow(n, Run(h, Schedule(pi, residue / PRIMES[pi], stride * PRIMES[pi]), stride * PRIMES[pi], e),
                          Run(h, Schedule(pi, residue, stride), stride, d))
  {
    hide Stage;
    var p := PRIMES[pi];
    SplitResidue(n, stride, residue, p);
    var stages, rest := Schedule(pi, residue, stride), Schedule(pi, residue / p, stride * p);
    ScheduleShape(pi, residue, stride, n);
    ScheduleShape(pi, residue / p, stride * p, n);
    assert stages == [StageSpec(p, stride)] + rest && stages[1..] == rest;
    RunLocal(h, rest, stride * p, n, e, Stage(h, p, stride, d));
  }
}
