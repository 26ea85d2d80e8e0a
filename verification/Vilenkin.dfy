/** The transform of the squarefree path (core/src/shannon_prime_sqfree.c, `sp_prime_factorize`,
    `sp_hartley_stage_f32`, `sp_vilenkin_forward_f32`, `sp_sqfree_pad_f32`, `sp_sqfree_unpad_f32`): the same
    stages as VHT2, without the radix-2 butterfly, and only when the length factors completely. */
module Vilenkin {
  import opened Compression
  import opened IntArith
  import opened Matrices
  import opened Permutations
  import opened RealArith
  import opened Sums
  import opened Vht2
  import opened Vht2Kernel
  import opened Vht2Theory

  const MAX_FACTORS: nat := 16

  /** What is left after dividing them out. */
  function Rest(pi: nat, residue: nat): nat
    requires pi <= |PRIMES| && residue > 0
    decreases |PRIMES| - pi, residue
  {
    if pi == |PRIMES| then residue
    else if residue % PRIMES[pi] == 0 then
      assert residue / PRIMES[pi] < residue;
      Rest(pi, residue / PRIMES[pi])
    else Rest(pi + 1, residue)
  }

  predicate Factorable(n: nat)
    requires n > 0
  {
    Rest(0, n) == 1 && |Radices(0, n)| <= MAX_FACTORS
  }

  lemma {:induction false} FactorsOfOne(pi: nat)
    requires pi <= |PRIMES|
    ensures Radices(pi, 1) == [] && Rest(pi, 1) == 1
    decreases |PRIMES| - pi
  {
    if pi < |PRIMES| {
      FactorsOfOne(pi + 1);
    }
  }

  /** The factors are all there is to divide out: with the rest they multiply to the residue, and no prime
      of the list divides the rest. */
  lemma {:induction false} FactorsComplete(pi: nat, residue: nat)
    requires pi <= |PRIMES| && residue > 0
    ensures ProductOf(Radices(pi, residue)) * Rest(pi, residue) == residue
    ensures Rest(pi, residue) > 0
    ensures forall k :: pi <= k < |PRIMES| ==> Rest(pi, residue) % PRIMES[k] != 0
    decreases |PRIMES| - pi, residue
  {
    if pi < |PRIMES| {
      var p := PRIMES[pi];
      if residue % p == 0 {
        var q := residue / p;
        assert q < residue;
        FactorsComplete(pi, q);
        var fs := Radices(pi, residue);
        assert fs[0] == p && fs[1..] == Radices(pi, q);
        assert residue == p * q;
        AssociateLeft(p, ProductOf(fs[1..]), Rest(pi, q));
      } else {
        FactorsComplete(pi + 1, residue);
        var rest := Rest(pi + 1, residue);
        if rest % p == 0 {
          MultipleDivides(ProductOf(Radices(pi + 1, residue)), rest, p, residue);
        }
      }
    } else {
      assert Radices(pi, residue) == [];
    }
  }

  lemma AssociateLeft(a: int, b: int, c: int)
    ensures (a * b) * c == a * (b * c)
  {
  }

  lemma MultipleDivides(a: int, rest: int, p: int, product: int)
    requires p > 0 && rest % p == 0 && product == a * rest
    ensures product % p == 0
  {
    var k := rest / p;
    AssociateLeft(a, k, p);
    assert product == (a * k) * p + 0;
    DivModUnique(product, p, a * k, 0);
  }

  /** The stages of the transform use up every factor 2, 3, 5, 7 and 11 of the length. */
  lemma ScheduleComplete(n: nat)
    requires n > 0
    ensures |Schedule(0, n, 1)| == |Radices(0, n)|
    ensures forall f :: 0 <= f < |Radices(0, n)| ==> Schedule(0, n, 1)[f].p == Radices(0, n)[f]
    ensures ProductOf(Radices(0, n)) * Rest(0, n) == n
    ensures forall k :: 0 <= k < |PRIMES| ==> Rest(0, n) % PRIMES[k] != 0
  {
    FactorsOfSchedule(0, n, 1);
    FactorsComplete(0, n);
  }

  /** A length factors exactly when at most sixteen of the five primes multiply to it. */
  lemma FactorableIff(n: nat)
    requires n > 0
    ensures Factorable(n) ==> SmallFactors(n, Radices(0, n)) && ProductOf(Radices(0, n)) == n && |Radices(0, n)| <= 16
    ensures !Factorable(n) ==> forall fs :: SmallFactors(n, fs) && ProductOf(fs) == n ==> |fs| > 16
  {
    hide Rest, Radices, SmallFactors, ProductOf;
    FactorsComplete(0, n);
    FactorsExist(n);
    forall fs | SmallFactors(n, fs) && ProductOf(fs) == n
      ensures Factorable(n) || |fs| > 16
    {
      StagesOfFactors(n, fs);
      assert n * Rest(0, n) == n;
      OnlyOne(n, Rest(0, n));
    }
  }

  lemma OnlyOne(n: int, r: int)
    requires n > 0 && n * r == n
    ensures r == 1
  {
    if r >= 2 {
      MulMono(2, r, n);
    } else if r <= 0 {
      MulMono(r, 0, n);
    }
  }

  /** `sp_prime_factorize`: the factors, if there are at most sixteen and nothing else is left. */
  method PrimeFactorize(n: nat) returns (ok: bool, factors: seq<nat>)
    requires n > 0
    ensures ok <==> Factorable(n)
    ensures ok ==> factors == Radices(0, n)
    ensures ok ==> SmallFactors(n, factors) && ProductOf(factors) == n && |factors| <= 16
    ensures !ok ==> forall fs :: SmallFactors(n, fs) && ProductOf(fs) == n ==> |fs| > 16
  {
    hide SmallFactors, ProductOf;
    factors := [];
    var d: nat := n;
    var i := 0;
    // set when the cap stops the division by a prime that still divides
    ghost var capped := false;
    while i < |PRIMES| && d > 1
      invariant 0 <= i <= |PRIMES| && d > 0 && |factors| <= MAX_FACTORS
      invariant !capped ==> Radices(0, n) == factors + Radices(i, d) && Rest(0, n) == Rest(i, d)
      invariant capped ==> d > 1 && |factors| == MAX_FACTORS && !Factorable(n)
      decreases |PRIMES| - i
    {
      var p := PRIMES[i];
      while d % p == 0 && |factors| < MAX_FACTORS
        invariant d > 0 && |factors| <= MAX_FACTORS
        invariant !capped ==> Radices(0, n) == factors + Radices(i, d) && Rest(0, n) == Rest(i, d)
        invariant capped ==> d > 1 && |factors| == MAX_FACTORS && !Factorable(n)
        decreases d
      {
        assert d / p < d;
        assert factors + ([p] + Radices(i, d / p)) == (factors + [p]) + Radices(i, d / p);
        factors := factors + [p];
        d := d / p;
      }
      if d % p == 0 && !capped {
        assert Radices(i, d) == [p] + Radices(i, d / p);
        capped := true;
        DivisibleIsLarge(d, p);
      }
      i := i + 1;
    }
    ok := d == 1;
    if ok {
      FactorsOfOne(i);
    }
    FactorableIff(n);
  }

  lemma DivisibleIsLarge(d: nat, p: nat)
    requires d > 0 && p > 1 && d % p == 0
    ensures d > 1
  {
  }

  /** What the transform of the squarefree path does to a vector: VHT2's transform, or nothing. */
  ghost function VilenkinTransform(h: Kernels, n: nat, d: Vector): Vector
    requires n > 0
  {
    if Factorable(n) then Transform(h, n, d) else d
  }

  lemma {:induction false} FactorsOfSchedule(pi: nat, residue: nat, stride: nat)
    requires pi <= |PRIMES| && residue > 0
    ensures |Radices(pi, residue)| == |Schedule(pi, residue, stride)|
    ensures forall f :: 0 <= f < |Radices(pi, residue)| ==> Radices(pi, residue)[f] == Schedule(pi, residue, stride)[f].p
    decreases |PRIMES| - pi, residue
  {
    if pi < |PRIMES| {
      var p := PRIMES[pi];
      if residue % p == 0 {
        assert residue / p < residue;
        FactorsOfSchedule(pi, residue / p, stride * p);
      } else {
        FactorsOfSchedule(pi + 1, residue, stride);
      }
    }
  }

  /** `sp_vilenkin_forward_f32`, in place; it is also the inverse. */
  method VilenkinForward(data: array<real>, h: Kernels, s: real)
    requires data.Length > 0 && ValidKernels(h, s)
    modifies data
    ensures AgreeBelow(data.Length, Values(data), VilenkinTransform(h, data.Length, old(Values(data))))
  {
    hide ValidKernels, Run, Stage, Radices, Schedule, Rest;
    var n := data.Length;
    var ok, factors := PrimeFactorize(n);
    if !ok {
      return;
    }
    ghost var d, stages := Values(data), Schedule(0, n, 1);
    ScheduleShape(0, n, 1, n);
    FactorsOfSchedule(0, n, 1);
    var stride: nat := 1;
    assert stages[0..] == stages;
    for f := 0 to |factors|
      invariant stride > 0 && Chained(stages[f..], stride)
      invariant AgreeBelow(n, Run(h, stages[f..], stride, Values(data)), Transform(h, n, d))
    {
      ghost var before := Values(data);
      var p := factors[f];
      assert stages[f..][0] == StageSpec(p, stride) && stages[f..][1..] == stages[f + 1..];
      assert BlockDivides(n, stages[f]);
      ghost var blocks: nat :| IsBlocks(n, blocks, p, stride);
      StageInPlace(data, p, stride, h, s, false, blocks);
      NextStage(h, stages[f..], stride, n, before, Values(data));
      stride := stride * p;
    }
    NoStages(h, stages[|factors|..], stride, Values(data));
  }

  lemma NextStage(h: Kernels, stages: seq<StageSpec>, stride: nat, n: nat, before: Vector, after: Vector)
    requires stages != [] && Chained(stages, stride) && Fits(stages, n)
    requires AgreeBelow(n, after, Stage(h, stages[0].p, stride, before))
    ensures stride * stages[0].p > 0 && Chained(stages[1..], stride * stages[0].p)
    ensures AgreeBelow(n, Run(h, stages[1..], stride * stages[0].p, after), Run(h, stages, stride, before))
  {
    hide Stage;
    RunLocal(h, stages[1..], stride * stages[0].p, n, after, Stage(h, stages[0].p, stride, before));
  }

  lemma NoStages(h: Kernels, stages: seq<StageSpec>, stride: nat, d: Vector)
    requires stages == [] && Chained(stages, stride)
    ensures Run(h, stages, stride, d) == d
  {
  }

  /** In closed form: a length that is a product of at most sixteen of the five primes is transformed by the
      product of their kernels, smallest at the lowest digit; any other length is left alone. */
  lemma VilenkinIsKernel(h: Kernels, n: nat, d: Vector, x: int)
    requires n > 0 && 0 <= x < n
    ensures forall fs :: SmallFactors(n, fs) && ProductOf(fs) == n && |fs| <= 16 ==>
              VilenkinTransform(h, n, d)(x) == Sum(0, n, (y: int) => Times(d(y), KernelAt(h, fs, x, y)))
    ensures (forall fs :: SmallFactors(n, fs) && ProductOf(fs) == n ==> |fs| > 16) ==> VilenkinTransform(h, n, d)(x) == d(x)
  {
    hide Transform, Rest, Radices, KernelAt, ProductOf;
    FactorableIff(n);
    forall fs | SmallFactors(n, fs) && ProductOf(fs) == n && |fs| <= 16
      ensures VilenkinTransform(h, n, d)(x) == Sum(0, n, (y: int) => Times(d(y), KernelAt(h, fs, x, y)))
    {
      TransformIsKernel(h, n, fs, d, x);
    }
  }

  /** The squarefree path does leave a length like 26 alone, where VHT2 does not. */
  lemma TwentySixDoesNotFactor()
    ensures !Factorable(26)
  {
    assert Rest(1, 13) == Rest(2, 13) == Rest(3, 13) == Rest(4, 13) == Rest(5, 13) == 13;
    assert Rest(0, 26) == Rest(0, 13) == Rest(1, 13);
  }

  // ---------------------------------------------------------------- padding and the whole path

  /** Copy, and fill the tail with the mean. */
  method Pad(vec: seq<real>, out: array<real>)
    requires 0 < |vec| <= out.Length
    modifies out
    ensures out[..|vec|] == vec
    ensures forall i :: |vec| <= i < out.Length ==> out[i] * |vec| as real == Sum(0, |vec|, AsVector(vec))
  {
    forall i | 0 <= i < |vec| {
      out[i] := vec[i];
    }
    if out.Length > |vec| {
      var sum := 0.0;
      for i := 0 to |vec|
        invariant sum == Sum(0, i, AsVector(vec))
      {
        sum := sum + vec[i];
      }
      var mean := sum * (1.0 / |vec| as real);
      MeanTimesCount(sum, |vec| as real, mean);
      forall i | |vec| <= i < out.Length {
        out[i] := mean;
      }
    }
  }

  lemma MeanTimesCount(sum: real, n: real, mean: real)
    requires n > 0.0 && mean == sum * (1.0 / n)
    ensures mean * n == sum
  {
    assert (1.0 / n) * n == 1.0;
    assert mean * n == sum * ((1.0 / n) * n);
  }

  /** The transformed vector, or the vector itself. */
  ghost function Coefficients(h: Kernels, x: seq<real>): (c: seq<real>)
    requires |x| > 0
    ensures |c| == |x|
  {
    var t := VilenkinTransform(h, |x|, AsVector(x));
    seq(|x|, i requires 0 <= i < |x| => t(i))
  }

  /** Transforming reconstructed coefficients y back costs no accuracy: the squared distance to the padded
      vector is that of the coefficients, and dropping the padding can only lower it. */
  lemma BackTransformAccuracy(h: Kernels, s: real, x: seq<real>, y: seq<real>, headDim: nat)
    requires ValidKernels(h, s) && |x| == |y| > 0 && headDim <= |x|
    ensures SquaredError(Coefficients(h, y), x) == SquaredError(y, Coefficients(h, x))
    ensures SquaredError(Coefficients(h, y)[..headDim], x[..headDim]) <= SquaredError(y, Coefficients(h, x))
  {
    hide ValidKernels, Transform, Factorable, IsPermutation;
    var n, order := |x|, Natural(|x|);
    if Factorable(n) {
      NaturalIsPermutation(n);
      RestoreKeepsDistance(h, s, order, x, y);
      StoredInPlace(h, x);
      RestoredInPlace(h, y);
    } else {
      Untransformed(h, x);
      Untransformed(h, y);
    }
    PrefixError(Coefficients(h, y), x, headDim);
  }

  lemma CoefficientAt(h: Kernels, x: seq<real>, i: nat)
    requires i < |x|
    ensures Coefficients(h, x)[i] == if Factorable(|x|) then Transform(h, |x|, AsVector(x))(i) else x[i]
  {
    hide Transform, Rest, Radices;
    var t := VilenkinTransform(h, |x|, AsVector(x));
    assert Coefficients(h, x)[i] == t(i);
  }

  lemma StoredInPlace(h: Kernels, x: seq<real>)
    requires |x| > 0 && Factorable(|x|)
    ensures Stored(h, Natural(|x|), x) == Coefficients(h, x)
  {
    hide Transform, Factorable;
    var a, b := Stored(h, Natural(|x|), x), Coefficients(h, x);
    forall i | 0 <= i < |x|
      ensures a[i] == b[i]
    {
      CoefficientAt(h, x, i);
    }
  }

  lemma RestoredInPlace(h: Kernels, y: seq<real>)
    requires |y| > 0 && Factorable(|y|) && IsPermutation(Natural(|y|))
    ensures Restored(h, Natural(|y|), y) == Coefficients(h, y)
  {
    hide Transform, Factorable, IsPermutation;
    ScatteredUnique(Natural(|y|), y, y);
    var a, b := Restored(h, Natural(|y|), y), Coefficients(h, y);
    forall i | 0 <= i < |y|
      ensures a[i] == b[i]
    {
      CoefficientAt(h, y, i);
    }
  }

  lemma Untransformed(h: Kernels, x: seq<real>)
    requires |x| > 0 && !Factorable(|x|)
    ensures Coefficients(h, x) == x
  {
    hide Transform, Factorable;
    var c := Coefficients(h, x);
    forall i | 0 <= i < |x|
      ensures c[i] == x[i]
    {
      CoefficientAt(h, x, i);
    }
  }

  lemma PrefixError(a: seq<real>, b: seq<real>, m: nat)
    requires |a| == |b| && m <= |a|
    ensures SquaredError(a[..m], b[..m]) <= SquaredError(a, b)
  {
    hide SquareOf;
    var f := (i: int) => if 0 <= i < |a| then SquareOf(a[i] - b[i]) else 0.0;
    var g := (i: int) => if 0 <= i < |a[..m]| then SquareOf(a[..m][i] - b[..m][i]) else 0.0;
    SumSplit(0, m, |a|, f);
    SumCong(0, m, f, g);
    forall i | m <= i < |a|
      ensures f(i) >= 0.0
    {
      SquareNonNegative(a[i] - b[i]);
    }
    SumNonNeg(m, |a|, f);
  }

  lemma SquareNonNegative(x: real)
    ensures SquareOf(x) >= 0.0
  {
    SquareSign(x, x * x);
  }
}
