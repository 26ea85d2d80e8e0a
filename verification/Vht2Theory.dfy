/** The staged Hartley transform VHT2 as a function: each stage applies a p x p kernel along the
    digit of the index selected by its stride. Vectors are total functions of an integer index,
    because a stage maps each block of p * stride indices to itself, wherever the block lies. */
module Vht2Theory {
  import opened IntArith
  import opened Matrices
  import opened Sums

  type Vector = int -> real

  /** The kernel for each prime. */
  type Kernels = int -> Mat

  ghost predicate SelfInverseKernel(p: nat, H: Mat) {
    Symmetric(H, p) && Same(p, p, Product(p, H, H), Identity)
  }

  // ---------------------------------------------------------------- index algebra

  /** The digit of x that a stage of the given stride and radix p works on. */
  function Digit(x: int, stride: int, p: int): (k: int)
    requires stride > 0 && p > 0
    ensures 0 <= k < p
  {
    (x / stride) % p
  }

  /** x with that digit replaced by m. */
  function Move(x: int, stride: int, p: int, m: int): int
    requires stride > 0 && p > 0
  {
    x + (m - Digit(x, stride, p)) * stride
  }

  lemma DigitOfMove(x: int, stride: int, p: int, m: int)
    requires stride > 0 && p > 0 && 0 <= m < p
    ensures Digit(Move(x, stride, p, m), stride, p) == m
    ensures Move(x, stride, p, m) / (stride * p) == x / (stride * p)
    ensures Move(x, stride, p, m) % stride == x % stride
  {
    var y, k := x / stride, Digit(x, stride, p);
    AddMultiple(x, m - k, stride);
    assert y + (m - k) == (y / p) * p + m;
    DivModUnique(y + (m - k), p, y / p, m);
    DivDiv(x, stride, p);
    DivDiv(Move(x, stride, p, m), stride, p);
  }

  lemma MoveTwice(x: int, stride: int, p: int, m: int, l: int)
    requires stride > 0 && p > 0 && 0 <= m < p
    ensures Move(Move(x, stride, p, m), stride, p, l) == Move(x, stride, p, l)
  {
    DigitOfMove(x, stride, p, m);
    var k := Digit(x, stride, p);
    assert (m - k) * stride + (l - m) * stride == (l - k) * stride;
  }

  /** Moving the digit of a finer stage leaves the digit of a coarser one, and conversely. */
  lemma MovesIndependent(x: int, s: int, p: int, s': int, p': int, r: int, m: int, m': int)
    requires s > 0 && p > 0 && p' > 0 && r > 0 && s' == (s * p) * r && s * p > 0 && s' > 0
    requires 0 <= m < p && 0 <= m' < p'
    ensures Digit(Move(x, s, p, m), s', p') == Digit(x, s', p')
    ensures Digit(Move(x, s', p', m'), s, p) == Digit(x, s, p)
    ensures Move(Move(x, s, p, m), s', p', m') == Move(Move(x, s', p', m'), s, p, m)
  {
    DigitOfMove(x, s, p, m);
    DivDiv(x, s * p, r);
    DivDiv(Move(x, s, p, m), s * p, r);
    assert Move(x, s, p, m) / s' == x / s';
    var j := m' - Digit(x, s', p');
    assert j * s' == (j * r * p) * s;
    AddMultiple(x, j * r * p, s);
    AddMultiple(x / s, j * r, p);
    assert Move(x, s', p', m') == x + (j * r * p) * s;
  }

  // ---------------------------------------------------------------- one stage

  /** The values along one digit: m -> d(x with digit m). */
  ghost function Along(d: Vector, x: int, stride: int, p: int): Vector
    requires stride > 0 && p > 0
  {
    (m: int) => d(Move(x, stride, p, m))
  }

  ghost function Stage(h: Kernels, p: nat, stride: nat, d: Vector): Vector
    requires p > 0 && stride > 0
  {
    (x: int) => Apply(p, h(p), Along(d, x, stride, p))(Digit(x, stride, p))
  }

  lemma StageAt(h: Kernels, p: nat, stride: nat, d: Vector, x: int)
    requires p > 0 && stride > 0
    ensures Stage(h, p, stride, d)(x) == Apply(p, h(p), Along(d, x, stride, p))(Digit(x, stride, p))
    ensures Stage(h, p, stride, d)(x) == Dot(p, Along(d, x, stride, p), Row(h(p), Digit(x, stride, p)))
  {
    hide Dot, Digit;
  }

  lemma ApplyCong(n: nat, M: Mat, u: Vector, w: Vector, i: int)
    requires forall k :: 0 <= k < n ==> u(k) == w(k)
    ensures Apply(n, M, u)(i) == Apply(n, M, w)(i)
  {
    hide Dot;
    DotCommutes(n, u, Row(M, i));
    DotCommutes(n, w, Row(M, i));
    DotCong(n, Row(M, i), u, w);
  }

  lemma StageCong(h: Kernels, p: nat, stride: nat, d: Vector, e: Vector)
    requires p > 0 && stride > 0
    requires forall x: int :: d(x) == e(x)
    ensures forall x: int :: Stage(h, p, stride, d)(x) == Stage(h, p, stride, e)(x)
  {
    forall x: int
      ensures Stage(h, p, stride, d)(x) == Stage(h, p, stride, e)(x)
    {
      ApplyCong(p, h(p), Along(d, x, stride, p), Along(e, x, stride, p), Digit(x, stride, p));
    }
  }

  /** The output along a digit is the kernel applied to the input along it. */
  lemma StageAlong(h: Kernels, p: nat, stride: nat, d: Vector, x: int, m: int)
    requires p > 0 && stride > 0 && 0 <= m < p
    ensures Along(Stage(h, p, stride, d), x, stride, p)(m) == Apply(p, h(p), Along(d, x, stride, p))(m)
  {
    hide Move, Digit, Apply;
    var y := Move(x, stride, p, m);
    DigitOfMove(x, stride, p, m);
    forall l | 0 <= l < p
      ensures Along(d, y, stride, p)(l) == Along(d, x, stride, p)(l)
    {
      MoveTwice(x, stride, p, m, l);
    }
    ApplyCong(p, h(p), Along(d, y, stride, p), Along(d, x, stride, p), m);
    StageAt(h, p, stride, d, y);
  }

  lemma DigitOwnMove(x: int, stride: int, p: int)
    requires stride > 0 && p > 0
    ensures Move(x, stride, p, Digit(x, stride, p)) == x
  {
  }

  /** A stage is its own inverse. */
  lemma StageInvolution(h: Kernels, p: nat, stride: nat, d: Vector, x: int)
    requires p > 0 && stride > 0 && SelfInverseKernel(p, h(p))
    ensures Stage(h, p, stride, Stage(h, p, stride, d))(x) == d(x)
  {
    hide Apply, Move, Digit;
    var u, k := Along(d, x, stride, p), Digit(x, stride, p);
    forall m | 0 <= m < p
      ensures Along(Stage(h, p, stride, d), x, stride, p)(m) == Apply(p, h(p), u)(m)
    {
      StageAlong(h, p, stride, d, x, m);
    }
    ApplyCong(p, h(p), Along(Stage(h, p, stride, d), x, stride, p), Apply(p, h(p), u), k);
    InvolutionCancels(p, h(p), u, k);
    DigitOwnMove(x, stride, p);
    StageAt(h, p, stride, Stage(h, p, stride, d), x);
  }

  /** A stage is linear. */
  lemma StageLinear(h: Kernels, p: nat, stride: nat, c: real, d: Vector, e: Vector, f: Vector, x: int)
    requires p > 0 && stride > 0 && forall y: int :: f(y) == d(y) + c * e(y)
    ensures Stage(h, p, stride, f)(x) == Stage(h, p, stride, d)(x) + c * Stage(h, p, stride, e)(x)
  {
    hide Dot, Digit, Move;
    var row := Row(h(p), Digit(x, stride, p));
    var u, w, z := Along(d, x, stride, p), Along(e, x, stride, p), Along(f, x, stride, p);
    StageAt(h, p, stride, d, x);
    StageAt(h, p, stride, e, x);
    StageAt(h, p, stride, f, x);
    DotLinear(p, row, c, u, w, z);
    DotCommutes(p, row, u);
    DotCommutes(p, row, w);
    DotCommutes(p, row, z);
  }

  /** A sample between two kernel entries. */
  ghost function Weighted(a: real, v: real, b: real): real {
    a * (v * b)
  }

  lemma WeightedSwap(a: real, v: real, b: real)
    ensures Weighted(a, v, b) == Weighted(b, v, a)
  {
  }

  /** One order of two stages as a double sum over the two digits. */
  lemma NestedStages(h: Kernels, p: nat, s: nat, p': nat, s': nat, d: Vector, x: int, F: Mat)
    requires p > 0 && s > 0 && p' > 0 && s' > 0
    requires forall m :: 0 <= m < p ==> Digit(Move(x, s, p, m), s', p') == Digit(x, s', p')
    requires forall m, m' :: 0 <= m < p && 0 <= m' < p' ==>
      F(m, m') == Weighted(h(p)(Digit(x, s, p), m), d(Move(Move(x, s, p, m), s', p', m')), h(p')(Digit(x, s', p'), m'))
    ensures Stage(h, p, s, Stage(h, p', s', d))(x) == Sum(0, p, (m: int) => Sum(0, p', (m': int) => F(m, m')))
  {
    hide Move, Digit, Apply, Weighted, Stage, Along, Row, Dot, Sum;
    var k, k' := Digit(x, s, p), Digit(x, s', p');
    var e := Stage(h, p', s', d);
    var rows := (m: int) => Sum(0, p', (m': int) => F(m, m'));
    StageAt(h, p, s, e, x);
    forall m | 0 <= m < p
      ensures rows(m) == Along(e, x, s, p)(m) * Row(h(p), k)(m)
    {
      NestedRow(h, p, s, p', s', d, x, m, F);
    }
    DotSum(p, Along(e, x, s, p), Row(h(p), k), rows);
  }

  lemma NestedRow(h: Kernels, p: nat, s: nat, p': nat, s': nat, d: Vector, x: int, m: int, F: Mat)
    requires p > 0 && s > 0 && p' > 0 && s' > 0 && 0 <= m < p
    requires Digit(Move(x, s, p, m), s', p') == Digit(x, s', p')
    requires forall m' :: 0 <= m' < p' ==>
      F(m, m') == Weighted(h(p)(Digit(x, s, p), m), d(Move(Move(x, s, p, m), s', p', m')), h(p')(Digit(x, s', p'), m'))
    ensures Along(Stage(h, p', s', d), x, s, p)(m) * Row(h(p), Digit(x, s, p))(m) == Sum(0, p', (m': int) => F(m, m'))
  {
    hide Move, Digit, Apply, Stage;
    var y, k' := Move(x, s, p, m), Digit(x, s', p');
    var a := h(p)(Digit(x, s, p), m);
    var inner, outer := (m': int) => Along(d, y, s', p')(m') * Row(h(p'), k')(m'), (m': int) => F(m, m');
    StageAt(h, p', s', d, y);
    assert Stage(h, p', s', d)(y) == Sum(0, p', inner);
    forall m' | 0 <= m' < p'
      ensures outer(m') == a * inner(m')
    {
      assert Along(d, y, s', p')(m') == d(Move(y, s', p', m'));
      assert Row(h(p'), k')(m') == h(p')(k', m');
    }
    SumScale(0, p', a, inner, outer);
  }

  /** Two stages commute when the stride of one is a multiple of the block of the other. */
  lemma StagesCommute(h: Kernels, p: nat, s: nat, p': nat, s': nat, r: nat, d: Vector, x: int)
    requires p > 0 && s > 0 && p' > 0 && r > 0 && s * p > 0 && s' == (s * p) * r && s' > 0
    ensures Stage(h, p, s, Stage(h, p', s', d))(x) == Stage(h, p', s', Stage(h, p, s, d))(x)
  {
    hide Move, Digit, Stage, Weighted;
    var k, k' := Digit(x, s, p), Digit(x, s', p');
    var F: Mat := (m: int, m': int) => Weighted(h(p)(k, m), d(Move(Move(x, s, p, m), s', p', m')), h(p')(k', m'));
    var G: Mat := (m': int, m: int) => F(m, m');
    forall m, m' | 0 <= m < p && 0 <= m' < p'
      ensures Digit(Move(x, s, p, m), s', p') == k'
      ensures Digit(Move(x, s', p', m'), s, p) == k
      ensures G(m', m) == Weighted(h(p')(k', m'), d(Move(Move(x, s', p', m'), s, p, m)), h(p)(k, m))
    {
      MovesIndependent(x, s, p, s', p', r, m, m');
      WeightedSwap(h(p)(k, m), d(Move(Move(x, s, p, m), s', p', m')), h(p')(k', m'));
    }
    forall m | 0 <= m < p
      ensures Digit(Move(x, s, p, m), s', p') == k'
    {
      MovesIndependent(x, s, p, s', p', r, m, 0);
    }
    forall m' | 0 <= m' < p'
      ensures Digit(Move(x, s', p', m'), s, p) == k
    {
      MovesIndependent(x, s, p, s', p', r, 0, m');
    }
    NestedStages(h, p, s, p', s', d, x, F);
    NestedStages(h, p', s', p, s, d, x, G);
    SwapNested(p, p', F, G);
  }

  lemma SwapNested(p: nat, p': nat, F: Mat, G: Mat)
    requires forall m, m' :: 0 <= m < p && 0 <= m' < p' ==> G(m', m) == F(m, m')
    ensures Sum(0, p, (m: int) => Sum(0, p', (m': int) => F(m, m')))
            == Sum(0, p', (m': int) => Sum(0, p, (m: int) => G(m', m)))
  {
    var rows, cols := (m: int) => Sum(0, p', (m': int) => F(m, m')), (m': int) => Sum(0, p, (m: int) => G(m', m));
    forall m' | 0 <= m' < p'
      ensures cols(m') == Sum(0, p, (m: int) => F(m, m'))
    {
      SumCong(0, p, (m: int) => G(m', m), (m: int) => F(m, m'));
    }
    SumSwap(0, p, 0, p', F, rows, cols);
  }

  // ---------------------------------------------------------------- the whole transform

  datatype StageSpec = StageSpec(p: nat, stride: nat)

  /** Strides grow by the radix of each stage, starting from `stride`. */
  ghost predicate Chained(stages: seq<StageSpec>, stride: nat)
    decreases |stages|
  {
    stride > 0 &&
    (stages != [] ==>
       && stages[0].p > 0 && stages[0].stride == stride
       && Chained(stages[1..], stride * stages[0].p))
  }

  ghost function Run(h: Kernels, stages: seq<StageSpec>, stride: nat, d: Vector): Vector
    requires Chained(stages, stride)
    decreases |stages|
  {
    if stages == [] then d
    else Run(h, stages[1..], stride * stages[0].p, Stage(h, stages[0].p, stride, d))
  }

  ghost predicate KernelsSelfInverse(h: Kernels, stages: seq<StageSpec>) {
    forall i :: 0 <= i < |stages| ==> SelfInverseKernel(stages[i].p, h(stages[i].p))
  }

  ghost predicate SameVector(d: Vector, e: Vector) {
    forall x: int :: d(x) == e(x)
  }

  lemma {:induction false} RunCong(h: Kernels, stages: seq<StageSpec>, stride: nat, d: Vector, e: Vector)
    requires Chained(stages, stride) && SameVector(d, e)
    ensures SameVector(Run(h, stages, stride, d), Run(h, stages, stride, e))
    decreases |stages|
  {
    hide Stage;
    if stages != [] {
      StageCong(h, stages[0].p, stride, d, e);
      RunCong(h, stages[1..], stride * stages[0].p, Stage(h, stages[0].p, stride, d), Stage(h, stages[0].p, stride, e));
    }
  }

  /** A stage commutes with any chain of coarser stages. */
  lemma {:induction false} StageCommutesWithRun(h: Kernels, p: nat, s: nat, stages: seq<StageSpec>, stride: nat, r: nat, d: Vector)
    requires p > 0 && s > 0 && r > 0 && s * p > 0 && stride == (s * p) * r && Chained(stages, stride)
    ensures SameVector(Stage(h, p, s, Run(h, stages, stride, d)), Run(h, stages, stride, Stage(h, p, s, d)))
    decreases |stages|
  {
    hide Stage;
    if stages != [] {
      var q := stages[0].p;
      var e := Stage(h, q, stride, d);
      assert stride * q == (s * p) * (r * q) && r * q > 0 by {
        MulPos(r, q);
      }
      StageCommutesWithRun(h, p, s, stages[1..], stride * q, r * q, e);
      forall x: int
        ensures Stage(h, p, s, e)(x) == Stage(h, q, stride, Stage(h, p, s, d))(x)
      {
        StagesCommute(h, p, s, q, stride, r, d, x);
      }
      RunCong(h, stages[1..], stride * q, Stage(h, p, s, e), Stage(h, q, stride, Stage(h, p, s, d)));
    }
  }

  /** The whole transform is its own inverse. */
  lemma {:induction false} RunInvolution(h: Kernels, stages: seq<StageSpec>, stride: nat, d: Vector)
    requires Chained(stages, stride) && KernelsSelfInverse(h, stages)
    ensures SameVector(Run(h, stages, stride, Run(h, stages, stride, d)), d)
    decreases |stages|
  {
    hide Stage, SelfInverseKernel;
    if stages != [] {
      var p, rest := stages[0].p, stages[1..];
      var next := stride * p;
      var e := Stage(h, p, stride, d);
      assert SelfInverseKernel(p, h(p));
      assert KernelsSelfInverse(h, rest) by {
        assert forall i :: 0 <= i < |rest| ==> rest[i] == stages[i + 1];
      }
      // the first stage moves through the rest of the first pass and meets itself
      StageCommutesWithRun(h, p, stride, rest, next, 1, e);
      RunCong(h, rest, next, Stage(h, p, stride, Run(h, rest, next, e)), Run(h, rest, next, Stage(h, p, stride, e)));
      forall x: int
        ensures Stage(h, p, stride, e)(x) == d(x)
      {
        StageInvolution(h, p, stride, d, x);
      }
      RunCong(h, rest, next, Stage(h, p, stride, e), d);
      RunCong(h, rest, next, Run(h, rest, next, Stage(h, p, stride, e)), Run(h, rest, next, d));
      RunInvolution(h, rest, next, d);
    }
  }

  /** f = d + c * e, everywhere. */
  ghost predicate IsCombination(f: Vector, d: Vector, c: real, e: Vector) {
    forall y: int :: f(y) == d(y) + c * e(y)
  }

  lemma {:induction false} RunLinear(h: Kernels, stages: seq<StageSpec>, stride: nat, c: real, d: Vector, e: Vector, f: Vector)
    requires Chained(stages, stride) && IsCombination(f, d, c, e)
    ensures IsCombination(Run(h, stages, stride, f), Run(h, stages, stride, d), c, Run(h, stages, stride, e))
    decreases |stages|
  {
    hide Stage;
    if stages != [] {
      var p := stages[0].p;
      var d', e', f' := Stage(h, p, stride, d), Stage(h, p, stride, e), Stage(h, p, stride, f);
      forall x: int
        ensures f'(x) == d'(x) + c * e'(x)
      {
        StageLinear(h, p, stride, c, d, e, f, x);
      }
      RunLinear(h, stages[1..], stride * p, c, d', e', f');
    }
  }

  // ---------------------------------------------------------------- energy

  ghost function Square(d: Vector): Vector {
    (x: int) => d(x) * d(x)
  }

  ghost function Energy(n: int, d: Vector): real {
    Sum(0, n, Square(d))
  }

  lemma {:induction false} SumShift(lo: int, hi: int, c: int, f: Vector)
    ensures Sum(lo + c, hi + c, f) == Sum(lo, hi, (j: int) => f(j + c))
    decreases hi - lo
  {
    if lo < hi {
      SumShift(lo, hi - 1, c, f);
    }
  }

  /** A sum over [0, a * b) block by block. */
  lemma {:induction false} SumBlocks(a: nat, b: nat, f: Vector)
    ensures Sum(0, a * b, f) == Sum(0, a, (i: int) => Sum(0, b, (j: int) => f(i * b + j)))
    decreases a
  {
    var blocks := (i: int) => Sum(0, b, (j: int) => f(i * b + j));
    if a == 0 {
    } else {
      var c := (a - 1) * b;
      SumBlocks(a - 1, b, f);
      assert a * b == c + b && 0 <= c;
      SumSplit(0, c, c + b, f);
      SumShift(0, b, c, f);
      SumCong(0, b, (j: int) => f(j + c), (j: int) => f((a - 1) * b + j));
      assert blocks(a - 1) == Sum(0, b, (j: int) => f((a - 1) * b + j));
    }
  }

  /** An orthonormal symmetric kernel keeps the energy of a group. */
  lemma KernelKeepsEnergy(p: nat, H: Mat, u: Vector)
    requires SelfInverseKernel(p, H)
    ensures Dot(p, Apply(p, H, u), Apply(p, H, u)) == Dot(p, u, u)
  {
    hide Dot, Apply;
    var v := Apply(p, H, u);
    SymmetricMovesAcross(p, H, u, v);
    forall i | 0 <= i < p
      ensures Apply(p, H, v)(i) == u(i)
    {
      InvolutionCancels(p, H, u, i);
    }
    DotCong(p, u, Apply(p, H, v), u);
  }

  /** Position of digit k in the group with block b and low part j. */
  function GroupAt(p: nat, stride: nat, b: int, j: int, k: int): int {
    b * (p * stride) + (k * stride + j)
  }

  /** The values in one group, as a vector. */
  ghost function Group(d: Vector, p: nat, stride: nat, b: int, j: int): Vector {
    (k: int) => d(GroupAt(p, stride, b, j, k))
  }

  /** The energy of the p values that share all digits but one, by low part j and block b. */
  lemma GroupEnergy(h: Kernels, p: nat, stride: nat, d: Vector, b: nat, j: nat)
    requires p > 0 && stride > 0 && SelfInverseKernel(p, h(p)) && j < stride
    ensures Sum(0, p, Group(Square(Stage(h, p, stride, d)), p, stride, b, j))
            == Sum(0, p, Group(Square(d), p, stride, b, j))
  {
    hide Apply, Dot, SelfInverseKernel, GroupAt, Stage;
    var x := GroupAt(p, stride, b, j, 0);
    var u := Along(d, x, stride, p);
    var v := Apply(p, h(p), u);
    var e := Stage(h, p, stride, d);
    KernelKeepsEnergy(p, h(p), u);
    forall k | 0 <= k < p
      ensures Group(Square(d), p, stride, b, j)(k) == u(k) * u(k)
      ensures Group(Square(e), p, stride, b, j)(k) == v(k) * v(k)
    {
      GroupIndex(p, stride, b, j, k);
      StageAlong(h, p, stride, d, x, k);
    }
    DotSum(p, u, u, Group(Square(d), p, stride, b, j));
    DotSum(p, v, v, Group(Square(e), p, stride, b, j));
  }

  lemma GroupIndex(p: nat, stride: nat, b: nat, j: nat, k: int)
    requires p > 0 && stride > 0 && j < stride && 0 <= k < p
    ensures Move(GroupAt(p, stride, b, j, 0), stride, p, k) == GroupAt(p, stride, b, j, k)
    ensures Digit(GroupAt(p, stride, b, j, 0), stride, p) == 0
  {
    var x := GroupAt(p, stride, b, j, 0);
    assert x == (b * p) * stride + j;
    DivModUnique(x, stride, b * p, j);
    DivModUnique(b * p, p, b, 0);
  }

  /** A sum over [0, blocks * p * stride), group by group. */
  lemma SumGroups(f: Vector, p: nat, stride: nat, blocks: nat)
    ensures Sum(0, blocks * (p * stride), f)
            == Sum(0, blocks, (b: int) => Sum(0, stride, (j: int) => Sum(0, p, Group(f, p, stride, b, j))))
  {
    var B := p * stride;
    var outer, inner := (b: int) => Sum(0, B, (r: int) => f(b * B + r)),
                        (b: int) => Sum(0, stride, (j: int) => Sum(0, p, Group(f, p, stride, b, j)));
    SumBlocks(blocks, B, f);
    forall b | 0 <= b < blocks
      ensures outer(b) == inner(b)
    {
      var g := (r: int) => f(b * B + r);
      SumBlocks(p, stride, g);
      var F: Mat := (k: int, j: int) => f(GroupAt(p, stride, b, j, k));
      var rows := (k: int) => Sum(0, stride, (j: int) => g(k * stride + j));
      var cols := (j: int) => Sum(0, p, Group(f, p, stride, b, j));
      forall k | 0 <= k < p
        ensures rows(k) == Sum(0, stride, (j: int) => F(k, j))
      {
        var low := (j: int) => g(k * stride + j);
        forall j | 0 <= j < stride
          ensures low(j) == F(k, j)
        {
          assert GroupAt(p, stride, b, j, k) == b * B + (k * stride + j);
        }
        SumCong(0, stride, low, (j: int) => F(k, j));
      }
      forall j | 0 <= j < stride
        ensures cols(j) == Sum(0, p, (k: int) => F(k, j))
      {
        SumCong(0, p, Group(f, p, stride, b, j), (k: int) => F(k, j));
      }
      SumSwap(0, p, 0, stride, F, rows, cols);
    }
    SumCong(0, blocks, outer, inner);
  }

  lemma StageKeepsEnergy(h: Kernels, p: nat, stride: nat, d: Vector, blocks: nat)
    requires p > 0 && stride > 0 && SelfInverseKernel(p, h(p))
    ensures Energy(blocks * (p * stride), Stage(h, p, stride, d)) == Energy(blocks * (p * stride), d)
  {
    hide Stage, SelfInverseKernel, Square, Group;
    var f, g := Square(d), Square(Stage(h, p, stride, d));
    SumGroups(f, p, stride, blocks);
    SumGroups(g, p, stride, blocks);
    var fb, gb := (b: int) => Sum(0, stride, (j: int) => Sum(0, p, Group(f, p, stride, b, j))),
                  (b: int) => Sum(0, stride, (j: int) => Sum(0, p, Group(g, p, stride, b, j)));
    forall b | 0 <= b < blocks
      ensures fb(b) == gb(b)
    {
      var fj, gj := (j: int) => Sum(0, p, Group(f, p, stride, b, j)), (j: int) => Sum(0, p, Group(g, p, stride, b, j));
      forall j | 0 <= j < stride
        ensures fj(j) == gj(j)
      {
        GroupEnergy(h, p, stride, d, b, j);
      }
      SumCong(0, stride, fj, gj);
    }
    SumCong(0, blocks, fb, gb);
  }

  ghost predicate IsBlocks(n: nat, blocks: nat, p: nat, stride: nat) {
    n == blocks * (p * stride)
  }

  ghost predicate BlockDivides(n: nat, stage: StageSpec) {
    exists blocks: nat :: IsBlocks(n, blocks, stage.p, stage.stride)
  }

  /** Every stage's block divides n. */
  ghost predicate Fits(stages: seq<StageSpec>, n: nat) {
    forall i :: 0 <= i < |stages| ==> BlockDivides(n, stages[i])
  }

  lemma BlockCount(n: nat, blocks: nat, p: nat, stride: nat)
    requires IsBlocks(n, blocks, p, stride)
    ensures n == blocks * (p * stride)
  {
  }

  /** The whole transform keeps the sum of squares. */
  lemma {:induction false} RunKeepsEnergy(h: Kernels, stages: seq<StageSpec>, stride: nat, d: Vector, n: nat)
    requires Chained(stages, stride) && KernelsSelfInverse(h, stages) && Fits(stages, n)
    ensures Energy(n, Run(h, stages, stride, d)) == Energy(n, d)
    decreases |stages|
  {
    hide Stage, SelfInverseKernel, Energy, IsBlocks;
    if stages != [] {
      var p, rest := stages[0].p, stages[1..];
      forall i | 0 <= i < |rest|
        ensures SelfInverseKernel(rest[i].p, h(rest[i].p))
        ensures BlockDivides(n, rest[i])
      {
        assert rest[i] == stages[i + 1];
      }
      assert KernelsSelfInverse(h, rest) && Fits(rest, n);
      assert SelfInverseKernel(p, h(p)) && BlockDivides(n, stages[0]);
      var blocks: nat :| IsBlocks(n, blocks, stages[0].p, stages[0].stride);
      assert n == blocks * (p * stride) by {
        BlockCount(n, blocks, p, stride);
      }
      StageKeepsEnergy(h, p, stride, d, blocks);
      RunKeepsEnergy(h, rest, stride * p, Stage(h, p, stride, d), n);
    }
  }
}
