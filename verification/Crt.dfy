/** The residue number system of core/include/burnhard_crt.h. All values carry the machine widths of
    the C code, so that every operation below is also proved free of overflow. */
module Crt {
  import opened IntArith

  newtype int32 = x: int | -0x8000_0000 <= x < 0x8000_0000
  newtype int64 = x: int | -0x8000_0000_0000_0000 <= x < 0x8000_0000_0000_0000

  const M1: int64 := 2147483647
  const M2: int64 := 2147483629
  const M1_INV_MOD_M2: int64 := 2028178983
  const M_PRODUCT: int64 := M1 * M2
  /** M_PRODUCT >> 1: the largest magnitude Garner reconstructs. */
  const WINDOW: int64 := M_PRODUCT / 2
  const Q_LIMIT: int64 := 0x3FFF_FFFF

  /** The remainder operator of C: the result has the sign of the dividend. */
  function CRem(a: int64, b: int64): (r: int64)
    requires b > 0
    ensures -(b as int) < r as int < b as int
    ensures a >= 0 ==> r as int == a as int % b as int
    ensures (if r < 0 then r + b else r) as int == a as int % b as int
  {
    var e := a % b;
    if a < 0 && e != 0 then e - b else e
  }

  /** A residue as the C code normalises it: into [0, b). */
  function Residue(a: int64, b: int64): (r: int64)
    requires b > 0
    ensures 0 <= r < b && r as int == a as int % b as int
  {
    var r := CRem(a, b);
    if r < 0 then r + b else r
  }

  function ShredOne(q: int32): (r: (int32, int32))
    ensures 0 <= r.0 && 0 <= r.1
    ensures r.0 as int == q as int % M1 as int && r.1 as int == q as int % M2 as int
  {
    (Residue(q as int64, M1) as int32, Residue(q as int64, M2) as int32)
  }

  /** r1 + M1 * ((r2 - r1) * M1^-1 mod M2), lifted to a signed value. */
  function GarnerOne(r1: int32, r2: int32): int64 {
    var diff := Residue(r2 as int64 - r1 as int64, M2);
    var t := CRem(diff * M1_INV_MOD_M2, M2);
    var q := r1 as int64 + M1 * t;
    if q > WINDOW then q - M_PRODUCT else q
  }

  // ---------------------------------------------------------------- reconstruction

  /** M1 and M2 share no factor: M1 * M1_INV_MOD_M2 = 1 + 2028179000 * M2. */
  lemma CommonMultiple(u: int, v: int)
    requires 2147483647 * u == 2147483629 * v
    ensures u % 2147483629 == 0
  {
    var k := (2147483647 * 2028178983 - 1) / 2147483629;
    assert 2147483647 * 2028178983 == 1 + k * 2147483629;
    var w := 2028178983 * v - k * u;
    assert u == 2147483629 * w;
    DivModUnique(u, 2147483629, w, 0);
  }

  /** Before the sign lift, the reconstruction is the representative of q in [0, M1 * M2). */
  lemma GarnerCongruent(q: int, r1: int, r2: int, diff: int, t: int, x: int)
    requires r1 == q % 2147483647 && r2 == q % 2147483629
    requires diff == (r2 - r1) % 2147483629 && t == (diff * 2028178983) % 2147483629
    requires x == r1 + 2147483647 * t
    ensures 0 <= x < 2147483647 * 2147483629
    ensures x == q % (2147483647 * 2147483629)
  {
    var m1, m2, inv := 2147483647, 2147483629, 2028178983;
    var k := (m1 * inv - 1) / m2;
    assert m1 * inv == 1 + k * m2;
    var a, b, e, c := q / m1, q / m2, (r2 - r1) / m2, (diff * inv) / m2;
    assert q == m1 * a + r1 && q == m2 * b + r2;
    assert r2 - r1 == m2 * e + diff;
    assert diff * inv == m2 * c + t;
    var u, v := t - a, k * diff - e - m1 * c - b;
    assert x - q == m1 * u;
    assert x - q == m2 * v;
    CommonMultiple(u, v);
    var w := u / m2;
    assert u == m2 * w;
    assert q == x - (m1 * m2) * w;
    DivModUnique(q, m1 * m2, -w, x);
  }

  /** Before the lift, the joined value is q modulo the product. */
  lemma Joined(q: int64, r1: int32, r2: int32) returns (x: int64)
    requires r1 as int == q as int % M1 as int && r2 as int == q as int % M2 as int
    ensures x as int == q as int % (2147483647 * 2147483629)
    ensures GarnerOne(r1, r2) == if x > WINDOW then x - M_PRODUCT else x
  {
    var diff := Residue(r2 as int64 - r1 as int64, M2);
    var t := CRem(diff * M1_INV_MOD_M2, M2);
    x := r1 as int64 + M1 * t;
    GarnerCongruent(q as int, r1 as int, r2 as int, diff as int, t as int, x as int);
  }

  /** Garner of the two residues of q gives q back exactly when q lies in the window. */
  lemma GarnerExact(q: int64, r1: int32, r2: int32)
    requires r1 as int == q as int % M1 as int && r2 as int == q as int % M2 as int
    ensures GarnerOne(r1, r2) == q <==> -WINDOW <= q <= WINDOW
    ensures -WINDOW <= GarnerOne(r1, r2) <= WINDOW
  {
    hide GarnerOne;
    var x := Joined(q, r1, r2);
    var m := 2147483647 * 2147483629;
    if 0 <= q <= WINDOW {
      DivModUnique(q as int, m, 0, q as int);
    } else if -WINDOW <= q < 0 {
      DivModUnique(q as int, m, -1, q as int + m);
    }
  }

  /** Every 32-bit weight survives shredding and joining. */
  lemma ShredRoundTrip(q: int32)
    ensures GarnerOne(ShredOne(q).0, ShredOne(q).1) == q as int64
  {
    GarnerExact(q as int64, ShredOne(q).0, ShredOne(q).1);
  }

  // ---------------------------------------------------------------- the safe bound

  /** The cast of a size_t to int64_t. */
  function ToInt64(k: nat): int64
    requires k < 0x1_0000_0000_0000_0000
  {
    if k < 0x8000_0000_0000_0000 then k as int64 else (k - 0x1_0000_0000_0000_0000) as int64
  }

  /** Division as in C: towards zero. */
  function CDiv(a: int64, b: int64): int64
    requires a >= 0 && b != 0
  {
    if b > 0 then a / b
    else
      QuotientNonNegative(a as int, -(b as int));
      (-(a as int / -(b as int))) as int64
  }

  /** K * q^2 stays in the window. */
  ghost predicate InWindow(k: nat, q: int) {
    k * (q * q) <= WINDOW as int
  }

  lemma QuotientBound(k: nat, q2: int, s: int)
    requires k > 0 && q2 == WINDOW as int / k
    ensures s <= q2 <==> k * s <= WINDOW as int
  {
    var r := WINDOW as int % k;
    assert WINDOW as int == k * q2 + r;
    if s <= q2 {
      MulMono(s, q2, k);
    } else {
      MulMono(q2 + 1, s, k);
      assert (q2 + 1) * k == k * q2 + k;
    }
  }

  lemma SquareMono(a: int, b: int)
    requires 0 <= a <= b
    ensures a * a <= b * b
  {
    MulMono(a, b, a);
    MulMono(a, b, b);
  }

  lemma SquareFits(a: int)
    requires 0 <= a <= 0x8000_0001
    ensures 0 <= a * a < 0x8000_0000_0000_0000
  {
    SquareMono(0, a);
    SquareMono(a, 0x8000_0001);
  }

  /** The counting loop: the integer square root, but at least 1. */
  method RootLoop(q2: int64) returns (q: int64)
    requires q2 <= WINDOW
    ensures 1 <= q as int <= 0x8000_0000
    ensures q == 1 || q as int * q as int <= q2 as int
    ensures (q as int + 1) * (q as int + 1) > q2 as int
  {
    q := 1;
    SquareFits(2);
    while (q + 1) * (q + 1) <= q2
      invariant 1 <= q as int <= 0x8000_0000
      invariant 0 <= (q as int + 1) * (q as int + 1) < 0x8000_0000_0000_0000
      invariant q == 1 || q as int * q as int <= q2 as int
      decreases 0x8000_0000 - q as int
    {
      RootBelow(q as int + 1, q2 as int);
      q := q + 1;
      SquareFits(q as int + 1);
    }
  }

  lemma RootBelow(a: int, q2: int)
    requires a >= 0 && a * a <= q2 <= WINDOW as int
    ensures a < 0x8000_0000
  {
    if a >= 0x8000_0000 {
      SquareMono(0x8000_0000, a);
    }
  }

  lemma QuotientRange(a: int, k: int)
    requires 0 < k <= a
    ensures 1 <= a / k <= a
  {
    QuotientNonNegative(a, k);
    assert a == k * (a / k) + a % k;
  }

  /** WINDOW / innerDim in machine arithmetic: the quotient up to the window, not positive past it. */
  lemma WindowQuotient(innerDim: nat)
    requires 0 < innerDim < 0x1_0000_0000_0000_0000
    ensures innerDim <= WINDOW as int ==>
              CDiv(WINDOW, ToInt64(innerDim)) as int == WINDOW as int / innerDim >= 1
    ensures innerDim > WINDOW as int ==> CDiv(WINDOW, ToInt64(innerDim)) <= 0
    ensures CDiv(WINDOW, ToInt64(innerDim)) <= WINDOW
  {
    if innerDim < 0x8000_0000_0000_0000 {
      PositiveQuotient(innerDim as int64);
    } else {
      NegativeQuotient(ToInt64(innerDim));
    }
  }

  lemma PositiveQuotient(k: int64)
    requires k > 0
    ensures CDiv(WINDOW, k) as int == WINDOW as int / k as int
    ensures k <= WINDOW ==> 1 <= CDiv(WINDOW, k) <= WINDOW
    ensures k > WINDOW ==> CDiv(WINDOW, k) == 0
  {
    if k <= WINDOW {
      QuotientRange(WINDOW as int, k as int);
    } else {
      DivModUnique(WINDOW as int, k as int, 0, WINDOW as int);
    }
  }

  lemma NegativeQuotient(k: int64)
    requires k < 0
    ensures CDiv(WINDOW, k) <= 0
  {
    QuotientNonNegative(WINDOW as int, -(k as int));
  }

  /** `sp_burnhard_safe_q_max`: for every inner dimension up to the window, the largest magnitude up to
      2^30 - 1 that keeps K * q^2 inside it; past that the function answers 1, which is not safe. */
  method SafeQMax(innerDim: nat) returns (qMax: int32)
    requires innerDim < 0x1_0000_0000_0000_0000
    ensures 1 <= qMax as int <= Q_LIMIT as int
    ensures innerDim == 0 ==> qMax as int == Q_LIMIT as int
    ensures 0 < innerDim ==> (InWindow(innerDim, qMax as int) <==> innerDim <= WINDOW as int)
    ensures 0 < innerDim <= WINDOW as int ==>
              forall q :: qMax as int < q <= Q_LIMIT as int ==> !InWindow(innerDim, q)
    ensures innerDim > WINDOW as int ==> qMax == 1
  {
    hide CDiv;
    if innerDim == 0 {
      return Q_LIMIT as int32;
    }
    WindowQuotient(innerDim);
    var q2 := CDiv(WINDOW, ToInt64(innerDim));
    var q := RootLoop(q2);
    ghost var found := q as int;
    if q > Q_LIMIT {
      q := Q_LIMIT;
    }
    qMax := q as int32;
    if innerDim <= WINDOW as int {
      SafeBound(innerDim, q2 as int, found, qMax as int);
    } else {
      UnsafeBound(innerDim, q2 as int, found);
    }
  }

  lemma UnsafeBound(k: nat, q2: int, found: int)
    requires k > WINDOW as int && q2 <= 0 && found >= 1 && (found == 1 || found * found <= q2)
    ensures found == 1 && !InWindow(k, 1)
  {
    SquareMono(1, found);
  }

  lemma SafeBound(k: nat, q2: int, found: int, q: int)
    requires 0 < k <= WINDOW as int && q2 == WINDOW as int / k >= 1
    requires found >= 1 && (found == 1 || found * found <= q2) && (found + 1) * (found + 1) > q2
    requires q == if found > Q_LIMIT as int then Q_LIMIT as int else found
    ensures InWindow(k, q)
    ensures forall r :: q < r <= Q_LIMIT as int ==> !InWindow(k, r)
  {
    SquareMono(q, found);
    QuotientBound(k, q2, q * q);
    forall r | q < r <= Q_LIMIT as int
      ensures !InWindow(k, r)
    {
      SquareMono(found + 1, r);
      QuotientBound(k, q2, r * r);
    }
  }
}
