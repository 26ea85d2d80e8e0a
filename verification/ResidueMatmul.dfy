/** The residue matrix product of core/src/burnhard_residue_matmul.c: quantise both factors to
    integers, accumulate in one 64-bit integer per cell, reduce to two residues, join with Garner and
    scale back. The integer part carries machine widths, the scaling is over the reals. */
module ResidueMatmul {
  import opened Crt
  import opened IntArith
  import opened Matrices
  import opened RealArith
  import opened Sums

  // ---------------------------------------------------------------- the integer product

  /** Sum over k < len of A[m, k] * B[k, n], as an unbounded integer. */
  ghost function IntDot(A: (int, int) -> int, B: (int, int) -> int, m: int, n: int, len: nat): int {
    if len == 0 then 0 else IntDot(A, B, m, n, len - 1) + A(m, len - 1) * B(len - 1, n)
  }

  ghost predicate Bounded(M: (int, int) -> int, rows: nat, cols: nat, q: int) {
    forall i, j :: 0 <= i < rows && 0 <= j < cols ==> -q <= M(i, j) <= q
  }

  ghost function IntEntries(a: array2<int32>): (f: (int, int) -> int)
    reads a
    ensures forall i, j :: 0 <= i < a.Length0 && 0 <= j < a.Length1 ==> f(i, j) == a[i, j] as int
  {
    var rows := seq(a.Length0, i requires 0 <= i < a.Length0 reads a =>
                      seq(a.Length1, j requires 0 <= j < a.Length1 reads a => a[i, j] as int));
    (i: int, j: int) => if 0 <= i < |rows| && 0 <= j < |rows[i]| then rows[i][j] else 0
  }

  lemma ProductBound(a: int, b: int, q: int)
    requires -q <= a <= q && -q <= b <= q
    ensures -(q * q) <= a * b <= q * q
  {
    assert (q - a) * (q + b) >= 0 && (q + a) * (q - b) >= 0 && (q - a) * (q - b) >= 0 && (q + a) * (q + b) >= 0;
  }

  /** A partial sum over `len` terms bounded by q^2 each. */
  lemma {:induction false} DotBound(A: (int, int) -> int, B: (int, int) -> int, m: nat, n: nat, len: nat, rows: nat, cols: nat, inner: nat, q: int)
    requires len <= inner && m < rows && n < cols && q >= 0
    requires Bounded(A, rows, inner, q) && Bounded(B, inner, cols, q)
    ensures -(len * (q * q)) <= IntDot(A, B, m, n, len) <= len * (q * q)
  {
    if len > 0 {
      DotBound(A, B, m, n, len - 1, rows, cols, inner, q);
      ProductBound(A(m, len - 1), B(len - 1, n), q);
      assert len * (q * q) == (len - 1) * (q * q) + q * q;
    }
  }

  /** No partial sum of a safely quantised product leaves the reconstruction window. */
  lemma PartialSumInWindow(A: (int, int) -> int, B: (int, int) -> int, m: nat, n: nat, len: nat, rows: nat, cols: nat, inner: nat, q: int)
    requires len <= inner && m < rows && n < cols && q >= 0 && InWindow(inner, q)
    requires Bounded(A, rows, inner, q) && Bounded(B, inner, cols, q)
    ensures -(WINDOW as int) <= IntDot(A, B, m, n, len) <= WINDOW as int
  {
    DotBound(A, B, m, n, len, rows, cols, inner, q);
    SquareMono(0, q);
    MulMono(len, inner, q * q);
  }

  /** One output cell: accumulate, reduce to both residues, join. */
  method RecoverCell(A: array2<int32>, B: array2<int32>, m: nat, n: nat, ghost q: int) returns (recovered: int64)
    requires m < A.Length0 && n < B.Length1 && A.Length1 == B.Length0
    requires q >= 0 && InWindow(A.Length1, q)
    requires Bounded(IntEntries(A), A.Length0, A.Length1, q) && Bounded(IntEntries(B), B.Length0, B.Length1, q)
    ensures recovered as int == IntDot(IntEntries(A), IntEntries(B), m, n, A.Length1)
  {
    hide Bounded, InWindow;
    ghost var a, b := IntEntries(A), IntEntries(B);
    var acc: int64 := 0;
    for k := 0 to A.Length1
      invariant acc as int == IntDot(a, b, m, n, k)
      invariant -WINDOW <= acc <= WINDOW
    {
      TermFits(A[m, k], B[k, n]);
      PartialSumInWindow(a, b, m, n, k + 1, A.Length0, B.Length1, A.Length1, q);
      acc := acc + A[m, k] as int64 * B[k, n] as int64;
    }
    var r1, r2 := Residue(acc, M1), Residue(acc, M2);
    GarnerExact(acc, r1 as int32, r2 as int32);
    recovered := GarnerOne(r1 as int32, r2 as int32);
  }

  /** A product of two 32-bit values plus a sum in the window fits 64 bits. */
  lemma TermFits(x: int32, y: int32)
    ensures -0x4000_0000_0000_0000 <= x as int * y as int <= 0x4000_0000_0000_0000
  {
    ProductBound(x as int, y as int, 0x8000_0000);
  }

  // ---------------------------------------------------------------- quantisation

  /** Round to nearest, ties to even: `lrintf`. */
  function Rint(v: real): int {
    var f := v.Floor;
    var d := v - f as real;
    if d < 0.5 || (d == 0.5 && f % 2 == 0) then f else f + 1
  }

  lemma RintClose(v: real, q: int)
    requires -(q as real) <= v <= q as real
    ensures -0.5 <= Rint(v) as real - v <= 0.5
    ensures -q <= Rint(v) <= q
    ensures Abs(Rint(v) as real - v) == 0.5 ==> Rint(v) % 2 == 0
  {
  }

  /** peak is the largest magnitude among the entries, zero when there is none but zeros. */
  ghost predicate IsPeak(M: Mat, rows: nat, cols: nat, peak: real) {
    && peak >= 0.0
    && (forall i, j :: 0 <= i < rows && 0 <= j < cols ==> Abs(M(i, j)) <= peak)
    && (peak > 0.0 ==> exists i, j :: 0 <= i < rows && 0 <= j < cols && Abs(M(i, j)) == peak)
  }

  method PeakAbs(a: array2<real>) returns (peak: real)
    ensures IsPeak(Entries(a), a.Length0, a.Length1, peak)
    ensures forall i, j :: 0 <= i < a.Length0 && 0 <= j < a.Length1 ==> Abs(a[i, j]) <= peak
  {
    peak := 0.0;
    for i := 0 to a.Length0
      invariant peak >= 0.0
      invariant forall r, j :: 0 <= r < i && 0 <= j < a.Length1 ==> Abs(a[r, j]) <= peak
      invariant peak > 0.0 ==> exists r, j :: 0 <= r < i && 0 <= j < a.Length1 && Abs(a[r, j]) == peak
    {
      for j := 0 to a.Length1
        invariant peak >= 0.0
        invariant forall r, c :: 0 <= r < i && 0 <= c < a.Length1 ==> Abs(a[r, c]) <= peak
        invariant forall c :: 0 <= c < j ==> Abs(a[i, c]) <= peak
        invariant peak > 0.0 ==> exists r, c :: 0 <= r <= i && 0 <= c < a.Length1 && Abs(a[r, c]) == peak
      {
        var m := if a[i, j] < 0.0 then -a[i, j] else a[i, j];
        if m > peak {
          peak := m;
          assert Abs(a[i, j]) == peak;
        }
      }
    }
    if peak > 0.0 {
      var i, j :| 0 <= i < a.Length0 && 0 <= j < a.Length1 && Abs(a[i, j]) == peak;
      assert Abs(Entries(a)(i, j)) == peak;
    }
  }

  /** Integers within one half of the scaled values, both of magnitude at most q. */
  ghost predicate Quantised(M: (int, int) -> int, A: Mat, scale: real, rows: nat, cols: nat, q: real) {
    forall i, j :: 0 <= i < rows && 0 <= j < cols ==> QuantisedEntry(A(i, j), scale, q, M(i, j))
  }

  ghost predicate QuantisedEntry(x: real, scale: real, limit: real, q: int) {
    Abs(q as real) <= limit && Abs(q as real - Times(x, scale)) <= 0.5 && Abs(Times(x, scale)) <= limit
  }

  /** Scale, clamp defensively, round. With the peak-derived scale the clamp never acts, so each
      integer is within one half of the scaled value. */
  method Discretise(a: array2<real>, scale: real, qClamp: int32, ghost peak: real) returns (q: array2<int32>)
    requires 0 <= qClamp && peak > 0.0 && scale * peak == qClamp as real && scale >= 0.0
    requires forall i, j :: 0 <= i < a.Length0 && 0 <= j < a.Length1 ==> Abs(a[i, j]) <= peak
    ensures fresh(q) && q.Length0 == a.Length0 && q.Length1 == a.Length1
    ensures Bounded(IntEntries(q), q.Length0, q.Length1, qClamp as int)
    ensures Quantised(IntEntries(q), Entries(a), scale, a.Length0, a.Length1, qClamp as real)
  {
    hide QuantisedEntry;
    q := new int32[a.Length0, a.Length1]((i, j) => 0);
    for i := 0 to a.Length0
      invariant forall r, j :: 0 <= r < i && 0 <= j < a.Length1 ==>
                  QuantisedEntry(a[r, j], scale, qClamp as real, q[r, j] as int)
    {
      for j := 0 to a.Length1
        invariant forall r, c :: 0 <= r < i && 0 <= c < a.Length1 ==> QuantisedEntry(a[r, c], scale, qClamp as real, q[r, c] as int)
        invariant forall c :: 0 <= c < j ==> QuantisedEntry(a[i, c], scale, qClamp as real, q[i, c] as int)
      {
        q[i, j] := DiscretiseOne(a[i, j], scale, qClamp, peak);
      }
    }
    forall i, j | 0 <= i < a.Length0 && 0 <= j < a.Length1
      ensures -(qClamp as int) <= q[i, j] as int <= qClamp as int
    {
      EntryBound(a[i, j], scale, qClamp as int, q[i, j] as int);
    }
  }

  lemma EntryBound(x: real, scale: real, limit: int, q: int)
    requires QuantisedEntry(x, scale, limit as real, q)
    ensures -limit <= q <= limit
  {
  }

  method DiscretiseOne(x: real, scale: real, qClamp: int32, ghost peak: real) returns (q: int32)
    requires 0 <= qClamp && scale >= 0.0 && scale * peak == qClamp as real && Abs(x) <= peak
    ensures QuantisedEntry(x, scale, qClamp as real, q as int)
  {
    var v := x * scale;
    ScaledInRange(x, scale, peak, v, qClamp as real);
    if v > qClamp as real {
      v := qClamp as real;
    }
    if v < -(qClamp as real) {
      v := -(qClamp as real);
    }
    RintClose(v, qClamp as int);
    q := Rint(v) as int32;
  }

  lemma ScaledInRange(x: real, scale: real, peak: real, v: real, limit: real)
    requires scale >= 0.0 && Abs(x) <= peak && v == x * scale && scale * peak == limit
    ensures -limit <= v <= limit
  {
    ScaleMono(scale, x, peak);
    ScaleMono(scale, -peak, x);
    assert scale * -peak == -limit;
  }

  // ---------------------------------------------------------------- accuracy

  /** Sum over k < len of A(m, k) * B(k, n), over the reals. */
  ghost function RealDot(A: Mat, B: Mat, m: int, n: int, len: nat): real {
    if len == 0 then 0.0 else RealDot(A, B, m, n, len - 1) + A(m, len - 1) * B(len - 1, n)
  }

  /** The exact product, entry by entry. */
  lemma {:induction false} RealDotIsSum(A: Mat, B: Mat, m: int, n: int, len: nat, f: int -> real)
    requires forall k :: 0 <= k < len ==> f(k) == A(m, k) * B(k, n)
    ensures RealDot(A, B, m, n, len) == Sum(0, len, f)
  {
    if len > 0 {
      RealDotIsSum(A, B, m, n, len - 1, f);
    }
  }

  /** |x y - a b| <= q when |x - a|, |y - b| <= 1/2 and |x|, |b| <= q. */
  lemma ProductError(x: real, y: real, a: real, b: real, q: real)
    requires Abs(x - a) <= 0.5 && Abs(y - b) <= 0.5 && Abs(x) <= q && Abs(b) <= q
    ensures Abs(Times(x, y) - Times(a, b)) <= q
  {
    var d, e := y - b, x - a;
    AbsProduct(x, d, q, 0.5);
    AbsProduct(b, e, q, 0.5);
    SplitError(x, y, a, b, d, e);
    Triangle(Times(x, y) - Times(a, b), x * d, b * e, q * 0.5, q * 0.5);
  }

  lemma SplitError(x: real, y: real, a: real, b: real, d: real, e: real)
    requires d == y - b && e == x - a
    ensures x * y - a * b == x * d + b * e
  {
  }

  lemma Triangle(total: real, u: real, v: real, U: real, V: real)
    requires total == u + v && Abs(u) <= U && Abs(v) <= V
    ensures Abs(total) <= U + V
  {
  }

  /** |total - s * dot| */
  ghost function Gap(total: int, s: real, dot: real): real {
    Abs(total as real - Times(s, dot))
  }

  lemma IntDotStep(P: (int, int) -> int, Q: (int, int) -> int, m: int, n: int, k: nat, t: int)
    requires t == P(m, k) * Q(k, n)
    ensures IntDot(P, Q, m, n, k + 1) == IntDot(P, Q, m, n, k) + t
  {
  }

  lemma RealDotStep(A: Mat, B: Mat, m: int, n: int, k: nat, w: real)
    requires w == Times(A(m, k), B(k, n))
    ensures RealDot(A, B, m, n, k + 1) == RealDot(A, B, m, n, k) + w
  {
  }

  lemma EmptyGap(P: (int, int) -> int, Q: (int, int) -> int, A: Mat, B: Mat, m: int, n: int, s: real, q: real)
    ensures Gap(IntDot(P, Q, m, n, 0), s, RealDot(A, B, m, n, 0)) <= Times(0 as real, q)
  {
  }

  lemma {:induction false} DotError(P: (int, int) -> int, Q: (int, int) -> int, A: Mat, B: Mat, sA: real, sB: real,
                                    m: nat, n: nat, len: nat, rows: nat, inner: nat, cols: nat, q: real)
    requires m < rows && n < cols && len <= inner
    requires Quantised(P, A, sA, rows, inner, q) && Quantised(Q, B, sB, inner, cols, q)
    ensures Gap(IntDot(P, Q, m, n, len), Times(sA, sB), RealDot(A, B, m, n, len)) <= Times(len as real, q)
  {
    hide QuantisedEntry, Gap, Times, IntDot, RealDot;
    if len == 0 {
      EmptyGap(P, Q, A, B, m, n, Times(sA, sB), q);
    } else {
      var k := len - 1;
      var s, t, w := Times(sA, sB), P(m, k) * Q(k, n), Times(A(m, k), B(k, n));
      DotError(P, Q, A, B, sA, sB, m, n, k, rows, inner, cols, q);
      TermError(P(m, k), Q(k, n), t, A(m, k), B(k, n), sA, sB, q);
      GapStep(IntDot(P, Q, m, n, k), t, s, RealDot(A, B, m, n, k), w, Times(k as real, q), q);
      IntDotStep(P, Q, m, n, k, t);
      RealDotStep(A, B, m, n, k, w);
      ErrorStep(len, q);
    }
  }

  lemma ErrorStep(len: nat, q: real)
    requires len > 0
    ensures Times(len as real, q) == Times((len - 1) as real, q) + q
  {
  }

  lemma GapStep(i0: int, t: int, s: real, r0: real, w: real, bound: real, q: real)
    requires Gap(i0, s, r0) <= bound && Gap(t, s, w) <= q
    ensures Gap(i0 + t, s, r0 + w) <= bound + q
  {
    assert s * (r0 + w) == s * r0 + s * w;
  }

  /** One term of the dot product, quantised and exact. */
  lemma TermError(p: int, r: int, t: int, a: real, b: real, sA: real, sB: real, q: real)
    requires QuantisedEntry(a, sA, q, p) && QuantisedEntry(b, sB, q, r) && t == p * r
    ensures Gap(t, Times(sA, sB), Times(a, b)) <= q
  {
    hide Times;
    ProductError(p as real, r as real, Times(a, sA), Times(b, sB), q);
    ScaledTerm(a, b, sA, sB);
    IntProduct(p, r, t);
  }

  lemma IntProduct(p: int, r: int, t: int)
    requires t == p * r
    ensures t as real == Times(p as real, r as real)
  {
  }

  lemma ScaledTerm(a: real, b: real, sA: real, sB: real)
    ensures Times(Times(sA, sB), Times(a, b)) == Times(Times(a, sA), Times(b, sB))
  {
    assert (sA * sB) * (a * b) == (a * sA) * (b * sB);
  }

  /** Undoing both scales turns the bound K * q into K * peakA * peakB / q. */
  lemma UnscaledError(total: real, dot: real, s: real, p: real, q: real, K: real, inv: real)
    requires q > 0.0 && inv > 0.0 && inv * s == 1.0 && s * p == q * q && K >= 0.0
    requires Abs(total - Times(s, dot)) <= Times(K, q)
    ensures Times(Abs(Times(total, inv) - dot), q) <= Times(K, p)
  {
    var e := total - s * dot;
    assert inv * (s * dot) == (inv * s) * dot;
    assert total * inv - dot == inv * e;
    AbsProduct(inv, e, inv, K * q);
    assert inv * (q * q) == p by {
      assert inv * (s * p) == (inv * s) * p;
    }
    ScaleMono(q, Abs(inv * e), inv * (K * q));
    assert (inv * (K * q)) * q == K * (inv * (q * q));
  }

  // ---------------------------------------------------------------- the whole product

  lemma {:induction false} RealDotZero(A: Mat, B: Mat, m: nat, n: nat, len: nat)
    requires (forall k :: 0 <= k < len ==> A(m, k) == 0.0) || (forall k :: 0 <= k < len ==> B(k, n) == 0.0)
    ensures RealDot(A, B, m, n, len) == 0.0
  {
    if len > 0 {
      RealDotZero(A, B, m, n, len - 1);
    }
  }

  /** |c - dot| <= K * pA * pB / q: the bound every output cell meets. */
  ghost predicate CellAccurate(c: real, dot: real, K: nat, pA: real, pB: real, q: real) {
    Times(Abs(c - dot), q) <= Times(K as real, Times(pA, pB))
  }

  method ZeroCells(A: array2<real>, B: array2<real>, C: array2<real>, pA: real, pB: real, ghost q: real)
    requires A.Length1 == B.Length0 && C.Length0 == A.Length0 && C.Length1 == B.Length1 && C != A && C != B
    requires q > 0.0 && pA >= 0.0 && pB >= 0.0 && (pA == 0.0 || pB == 0.0)
    requires forall i, j :: 0 <= i < A.Length0 && 0 <= j < A.Length1 ==> Abs(A[i, j]) <= pA
    requires forall i, j :: 0 <= i < B.Length0 && 0 <= j < B.Length1 ==> Abs(B[i, j]) <= pB
    modifies C
    ensures forall m, n :: 0 <= m < C.Length0 && 0 <= n < C.Length1 ==>
      CellAccurate(C[m, n], RealDot(Entries(A), Entries(B), m, n, A.Length1), A.Length1, pA, pB, q)
  {
    forall i, j | 0 <= i < C.Length0 && 0 <= j < C.Length1 {
      C[i, j] := 0.0;
    }
    ghost var a, b := Entries(A), Entries(B);
    forall m, n | 0 <= m < C.Length0 && 0 <= n < C.Length1
      ensures CellAccurate(C[m, n], RealDot(a, b, m, n, A.Length1), A.Length1, pA, pB, q)
    {
      RealDotZero(a, b, m, n, A.Length1);
      assert Times(pA, pB) == 0.0;
    }
  }

  method MultiplyCells(A: array2<real>, B: array2<real>, C: array2<real>, aq: array2<int32>, bq: array2<int32>,
                       sA: real, sB: real, inv: real, ghost pA: real, ghost pB: real, ghost q: int)
    requires A.Length1 == B.Length0 && C.Length0 == A.Length0 && C.Length1 == B.Length1 && C != A && C != B
    requires aq.Length0 == A.Length0 && aq.Length1 == A.Length1 && bq.Length0 == B.Length0 && bq.Length1 == B.Length1
    requires q >= 1 && InWindow(A.Length1, q) && ScalesMatch(sA, sB, inv, pA, pB, q as real)
    requires Bounded(IntEntries(aq), aq.Length0, aq.Length1, q) && Bounded(IntEntries(bq), bq.Length0, bq.Length1, q)
    requires Quantised(IntEntries(aq), Entries(A), sA, A.Length0, A.Length1, q as real)
    requires Quantised(IntEntries(bq), Entries(B), sB, B.Length0, B.Length1, q as real)
    modifies C
    ensures forall m, n :: 0 <= m < C.Length0 && 0 <= n < C.Length1 ==>
      C[m, n] == Times(IntDot(IntEntries(aq), IntEntries(bq), m, n, A.Length1) as real, inv)
    ensures forall m, n :: 0 <= m < C.Length0 && 0 <= n < C.Length1 ==>
      CellAccurate(C[m, n], RealDot(Entries(A), Entries(B), m, n, A.Length1), A.Length1, pA, pB, q as real)
  {
    hide Bounded, InWindow, Quantised, CellAccurate, IntDot, RealDot, Times, ScalesMatch;
    ghost var P, Q := IntEntries(aq), IntEntries(bq);
    for m := 0 to C.Length0
      invariant forall r, n :: 0 <= r < m && 0 <= n < C.Length1 ==> C[r, n] == Times(IntDot(P, Q, r, n, A.Length1) as real, inv)
    {
      for n := 0 to C.Length1
        invariant forall r, j :: 0 <= r < m && 0 <= j < C.Length1 ==> C[r, j] == Times(IntDot(P, Q, r, j, A.Length1) as real, inv)
        invariant forall j :: 0 <= j < n ==> C[m, j] == Times(IntDot(P, Q, m, j, A.Length1) as real, inv)
      {
        var recovered := RecoverCell(aq, bq, m, n, q);
        C[m, n] := Times(recovered as real, inv);
      }
    }
    forall m, n | 0 <= m < C.Length0 && 0 <= n < C.Length1
      ensures CellAccurate(C[m, n], RealDot(Entries(A), Entries(B), m, n, A.Length1), A.Length1, pA, pB, q as real)
    {
      CellError(P, Q, Entries(A), Entries(B), sA, sB, m, n, A.Length0, A.Length1, B.Length1, q, pA, pB, inv);
    }
  }

  /** Both scales map the peaks to q, and inv undoes their product. */
  ghost predicate ScalesMatch(sA: real, sB: real, inv: real, pA: real, pB: real, q: real) {
    && q > 0.0 && pA > 0.0 && pB > 0.0 && sA > 0.0 && sB > 0.0 && inv > 0.0
    && sA * pA == q && sB * pB == q && inv * (sA * sB) == 1.0
  }

  lemma CellError(P: (int, int) -> int, Q: (int, int) -> int, A: Mat, B: Mat, sA: real, sB: real, m: nat, n: nat,
                  rows: nat, inner: nat, cols: nat, q: int, pA: real, pB: real, inv: real)
    requires m < rows && n < cols && q >= 1 && ScalesMatch(sA, sB, inv, pA, pB, q as real)
    requires Quantised(P, A, sA, rows, inner, q as real) && Quantised(Q, B, sB, inner, cols, q as real)
    ensures CellAccurate(Times(IntDot(P, Q, m, n, inner) as real, inv), RealDot(A, B, m, n, inner), inner, pA, pB, q as real)
  {
    hide IntDot, RealDot, Quantised, Times;
    DotError(P, Q, A, B, sA, sB, m, n, inner, rows, inner, cols, q as real);
    ScaledPeaks(sA, sB, inv, pA, pB, q as real);
    UnscaledError(IntDot(P, Q, m, n, inner) as real, RealDot(A, B, m, n, inner), Times(sA, sB), Times(pA, pB),
                  q as real, inner as real, inv);
  }

  lemma ScaledPeaks(sA: real, sB: real, inv: real, pA: real, pB: real, q: real)
    requires ScalesMatch(sA, sB, inv, pA, pB, q)
    ensures inv * Times(sA, sB) == 1.0 && Times(sA, sB) * Times(pA, pB) == q * q
  {
    assert (sA * sB) * (pA * pB) == (sA * pA) * (sB * pB);
  }

  lemma ScalesFromPeaks(pA: real, pB: real, q: real, sA: real, sB: real, inv: real)
    requires q > 0.0 && pA > 0.0 && pB > 0.0 && sA == q / pA && sB == q / pB
    ensures sA > 0.0 && sB > 0.0 && sA * pA == q && sB * pB == q && sA * sB > 0.0
    ensures inv == 1.0 / (sA * sB) ==> ScalesMatch(sA, sB, inv, pA, pB, q)
  {
    PositiveProduct(sA, sB, sA * sB);
  }

  /** `sp_burnhard_residue_matmul_fp32`: -22 (EINVAL) for an empty dimension, zeros when a factor is
      zero, and otherwise every cell within K * peakA * peakB / qMax of the exact product. `aq`, `bq`
      are the quantised factors; their exact integer product is recovered in every cell. */
  method Multiply(A: array2<real>, B: array2<real>, C: array2<real>) returns (rc: int, ghost qMax: int, ghost pA: real, ghost pB: real)
    requires A.Length1 == B.Length0 && C.Length0 == A.Length0 && C.Length1 == B.Length1
    requires C != A && C != B && A.Length1 <= WINDOW as int
    modifies C
    ensures rc == 0 || rc == -22
    ensures rc == -22 <==> A.Length0 == 0 || A.Length1 == 0 || B.Length1 == 0
    ensures rc == 0 ==> 1 <= qMax <= Q_LIMIT as int && InWindow(A.Length1, qMax)
    ensures rc == 0 ==> forall q :: qMax < q <= Q_LIMIT as int ==> !InWindow(A.Length1, q)
    ensures rc == 0 ==> IsPeak(Entries(A), A.Length0, A.Length1, pA) && IsPeak(Entries(B), B.Length0, B.Length1, pB)
    ensures rc == 0 ==> forall m, n :: 0 <= m < C.Length0 && 0 <= n < C.Length1 ==>
      CellAccurate(C[m, n], RealDot(Entries(A), Entries(B), m, n, A.Length1), A.Length1, pA, pB, qMax as real)
    ensures rc != 0 ==> Entries(C) == old(Entries(C))
  {
    hide CellAccurate, Quantised, InWindow, ScalesMatch, IsPeak;
    qMax, pA, pB := 1, 0.0, 0.0;
    if A.Length0 == 0 || A.Length1 == 0 || B.Length1 == 0 {
      return -22, 1, 0.0, 0.0;
    }
    var q := SafeQMax(A.Length1);
    var peakA := PeakAbs(A);
    var peakB := PeakAbs(B);
    qMax, pA, pB := q as int, peakA, peakB;
    if peakA == 0.0 || peakB == 0.0 {
      ZeroCells(A, B, C, peakA, peakB, q as real);
      return 0, qMax, pA, pB;
    }
    var scaleA, scaleB := q as real / peakA, q as real / peakB;
    ScalesFromPeaks(peakA, peakB, q as real, scaleA, scaleB, 0.0);
    var inv := 1.0 / (scaleA * scaleB);
    ScalesFromPeaks(peakA, peakB, q as real, scaleA, scaleB, inv);
    var aq := Discretise(A, scaleA, q, peakA);
    var bq := Discretise(B, scaleB, q, peakB);
    MultiplyCells(A, B, C, aq, bq, scaleA, scaleB, inv, peakA, peakB, q as int);
    return 0, qMax, pA, pB;
  }
}
