/** Finite sums of real-valued functions over an integer interval [lo, hi).

    The C loops accumulate from low to high index, which is how `Sum` unfolds. Each law
    takes the summands as functions together with a pointwise relation between them, so a
    caller never has to show that two lambda expressions are the same function. */
module Sums {

  ghost function Sum(lo: int, hi: int, f: int -> real): real
    decreases hi - lo
  {
    if hi <= lo then 0.0 else Sum(lo, hi - 1, f) + f(hi - 1)
  }

  lemma {:induction false} SumCong(lo: int, hi: int, f: int -> real, g: int -> real)
    requires forall k :: lo <= k < hi ==> f(k) == g(k)
    ensures Sum(lo, hi, f) == Sum(lo, hi, g)
    decreases hi - lo
  {
    if lo < hi {
      SumCong(lo, hi - 1, f, g);
    }
  }

  lemma {:induction false} SumZero(lo: int, hi: int, f: int -> real)
    requires forall k :: lo <= k < hi ==> f(k) == 0.0
    ensures Sum(lo, hi, f) == 0.0
    decreases hi - lo
  {
    if lo < hi {
      SumZero(lo, hi - 1, f);
    }
  }

  lemma {:induction false} SumAdd(lo: int, hi: int, f: int -> real, g: int -> real, h: int -> real)
    requires forall k :: lo <= k < hi ==> h(k) == f(k) + g(k)
    ensures Sum(lo, hi, h) == Sum(lo, hi, f) + Sum(lo, hi, g)
    decreases hi - lo
  {
    if lo < hi {
      SumAdd(lo, hi - 1, f, g, h);
    }
  }

  lemma {:induction false} SumScale(lo: int, hi: int, c: real, f: int -> real, h: int -> real)
    requires forall k :: lo <= k < hi ==> h(k) == c * f(k)
    ensures Sum(lo, hi, h) == c * Sum(lo, hi, f)
    decreases hi - lo
  {
    if lo < hi {
      SumScale(lo, hi - 1, c, f, h);
    }
  }

  /** h = f + c * g pointwise. */
  lemma {:induction false} SumLinear(lo: int, hi: int, c: real, f: int -> real, g: int -> real, h: int -> real)
    requires forall k :: lo <= k < hi ==> h(k) == f(k) + c * g(k)
    ensures Sum(lo, hi, h) == Sum(lo, hi, f) + c * Sum(lo, hi, g)
    decreases hi - lo
  {
    if lo < hi {
      SumLinear(lo, hi - 1, c, f, g, h);
    }
  }

  lemma {:induction false} SumSplit(lo: int, mid: int, hi: int, f: int -> real)
    requires lo <= mid <= hi
    ensures Sum(lo, hi, f) == Sum(lo, mid, f) + Sum(mid, hi, f)
    decreases hi - mid
  {
    if mid < hi {
      SumSplit(lo, mid, hi - 1, f);
    }
  }

  lemma SumFirst(lo: int, hi: int, f: int -> real)
    requires lo < hi
    ensures Sum(lo, hi, f) == f(lo) + Sum(lo + 1, hi, f)
  {
    SumSplit(lo, lo + 1, hi, f);
    assert Sum(lo, lo + 1, f) == Sum(lo, lo, f) + f(lo);
  }

  /** Only the summand at `at` may differ from zero. */
  lemma {:induction false} SumSingle(lo: int, hi: int, at: int, f: int -> real)
    requires lo <= at < hi
    requires forall k :: lo <= k < hi && k != at ==> f(k) == 0.0
    ensures Sum(lo, hi, f) == f(at)
  {
    SumSplit(lo, at, hi, f);
    SumFirst(at, hi, f);
    SumZero(lo, at, f);
    SumZero(at + 1, hi, f);
  }

  /** f and g agree except at `at`. */
  lemma {:induction false} SumUpdate(lo: int, hi: int, at: int, f: int -> real, g: int -> real)
    requires lo <= at < hi
    requires forall k :: lo <= k < hi && k != at ==> f(k) == g(k)
    ensures Sum(lo, hi, g) == Sum(lo, hi, f) + (g(at) - f(at))
  {
    SumSplit(lo, at, hi, f);
    SumSplit(lo, at, hi, g);
    SumFirst(at, hi, f);
    SumFirst(at, hi, g);
    SumCong(lo, at, f, g);
    SumCong(at + 1, hi, f, g);
  }

  lemma {:induction false} SumMono(lo: int, hi: int, f: int -> real, g: int -> real)
    requires forall k :: lo <= k < hi ==> f(k) <= g(k)
    ensures Sum(lo, hi, f) <= Sum(lo, hi, g)
    decreases hi - lo
  {
    if lo < hi {
      SumMono(lo, hi - 1, f, g);
    }
  }

  lemma {:induction false} SumNonNeg(lo: int, hi: int, f: int -> real)
    requires forall k :: lo <= k < hi ==> f(k) >= 0.0
    ensures Sum(lo, hi, f) >= 0.0
    decreases hi - lo
  {
    if lo < hi {
      SumNonNeg(lo, hi - 1, f);
    }
  }

  /** A sum of non-negative terms dominates each of them. */
  lemma SumAtLeastTerm(lo: int, hi: int, at: int, f: int -> real)
    requires lo <= at < hi
    requires forall k :: lo <= k < hi ==> f(k) >= 0.0
    ensures f(at) <= Sum(lo, hi, f)
  {
    SumSplit(lo, at, hi, f);
    SumFirst(at, hi, f);
    SumNonNeg(lo, at, f);
    SumNonNeg(at + 1, hi, f);
  }

  /** Exchange of summation order. `rows(i)` sums row i of F and `cols(j)` column j. */
  lemma {:induction false} SumSwap(a: int, b: int, c: int, d: int, F: (int, int) -> real,
                                   rows: int -> real, cols: int -> real)
    requires forall i :: a <= i < b ==> rows(i) == Sum(c, d, (j: int) => F(i, j))
    requires forall j :: c <= j < d ==> cols(j) == Sum(a, b, (i: int) => F(i, j))
    ensures Sum(a, b, rows) == Sum(c, d, cols)
    decreases b - a
  {
    if b <= a {
      forall j | c <= j < d
        ensures cols(j) == 0.0
      {
        assert cols(j) == Sum(a, b, (i: int) => F(i, j));
      }
      SumZero(c, d, cols);
    } else {
      var last := (j: int) => F(b - 1, j);
      var cols' := (j: int) => Sum(a, b - 1, (i: int) => F(i, j));
      SumSwap(a, b - 1, c, d, F, rows, cols');
      forall j | c <= j < d
        ensures cols(j) == cols'(j) + last(j)
      {
        var col := (i: int) => F(i, j);
        assert cols(j) == Sum(a, b, col);
      }
      SumAdd(c, d, cols', last, cols);
      assert rows(b - 1) == Sum(c, d, (j: int) => F(b - 1, j));
      SumCong(c, d, last, (j: int) => F(b - 1, j));
    }
  }
}
