/** Half-precision scales (core/include/shannon_prime.h, `sp_f32_to_f16`, `sp_f16_to_f32`; binary16 of
    IEEE 754-2008 section 3.4) on the values they denote. Encoding truncates the mantissa, flushes
    everything below the smallest normal number to zero and everything from 65536 on to infinity.
    Scales are never negative, so the encoder is given for non-negative values only. */
module Half {
  import opened Digits
  import opened RealArith

  datatype Stored = Finite(value: real) | NotFinite

  /** 2^(e - 15): the weight of the biased exponent e. */
  function Unit(e: nat): (u: real)
    ensures u > 0.0
  {
    Pow2(e) as real / 32768.0
  }

  /** The largest biased exponent up to e, and at least 1, whose unit does not exceed x. */
  function ExponentFrom(x: real, e: nat): (r: nat)
    requires 1 <= e
    ensures 1 <= r <= e
    ensures r == 1 || Unit(r) <= x
    ensures r < e ==> x < Unit(r + 1)
  {
    if e == 1 || Unit(e) <= x then e else ExponentFrom(x, e - 1)
  }

  /** `sp_f32_to_f16` for x >= 0. */
  function ToHalf(x: real): (h: nat)
    requires x >= 0.0
    ensures h < 65536
  {
    if x < Unit(1) then 0
    else if x >= Unit(31) then 0x7C00
    else
      var e := ExponentFrom(x, 30);
      MantissaRange(x, e);
      e * 1024 + Mantissa(x, e)
  }

  function Mantissa(x: real, e: nat): int {
    ((x / Unit(e) - 1.0) * 1024.0).Floor
  }

  lemma UnitDoubles(e: nat)
    ensures Unit(e + 1) == 2.0 * Unit(e)
  {
    assert Pow2(e + 1) as real == 2.0 * (Pow2(e) as real);
  }

  lemma MantissaRange(x: real, e: nat)
    requires Unit(e) <= x < Unit(e + 1)
    ensures 0 <= Mantissa(x, e) < 1024
  {
    UnitDoubles(e);
    var u := Unit(e);
    assert Times(u, 1.0) == u && Times(u, 2.0) == 2.0 * u;
    hide Unit, Times;
    QuotientOrder(x, u, 1.0);
    QuotientOrder(x, u, 2.0);
  }

  /** `sp_f16_to_f32`: sign, denormal, infinite and normal cases. */
  function FromHalf(h: nat): Stored {
    var negative, e, m := h / 32768 % 2 == 1, h / 1024 % 32, h % 1024;
    if e == 31 then NotFinite
    else
      var magnitude := if e == 0 then (m as real / 1024.0) * Unit(1) else (1.0 + m as real / 1024.0) * Unit(e);
      Finite(if negative then -magnitude else magnitude)
  }

  /** The scale a decoder uses: a non-finite stored scale is replaced by zero. */
  function Sanitised(h: nat): real {
    match FromHalf(h)
    case Finite(v) => v
    case NotFinite => 0.0
  }

  /** Truncation: in the normal range the stored value is at most x and within one part in 1024 of it. */
  lemma StoredScale(x: real)
    requires x >= 0.0
    ensures 0.0 <= Sanitised(ToHalf(x)) <= x
    ensures x < Unit(1) ==> FromHalf(ToHalf(x)) == Finite(0.0)
    ensures x >= Unit(31) ==> FromHalf(ToHalf(x)) == NotFinite
    ensures Unit(1) <= x < Unit(31) ==>
              && FromHalf(ToHalf(x)).Finite? && Sanitised(ToHalf(x)) > 0.0
              && x - Sanitised(ToHalf(x)) < x / 1024.0
  {
    if Unit(1) <= x < Unit(31) {
      hide Unit, ToHalf, FromHalf, ExponentFrom;
      NormalScale(x);
    } else {
      FlushedScale(x);
    }
  }

  lemma FlushedScale(x: real)
    requires x >= 0.0
    ensures x < Unit(1) ==> FromHalf(ToHalf(x)) == Finite(0.0)
    ensures x >= Unit(31) ==> FromHalf(ToHalf(x)) == NotFinite
  {
    hide Unit, ExponentFrom;
    assert 0.0 * Unit(1) == 0.0;
    UnitOrder();
  }

  lemma UnitOrder()
    ensures Unit(1) <= Unit(31)
  {
    Pow2Mono(1, 31);
  }

  lemma NormalScale(x: real)
    requires Unit(1) <= x < Unit(31)
    ensures FromHalf(ToHalf(x)).Finite?
    ensures 0.0 < Sanitised(ToHalf(x)) <= x && x - Sanitised(ToHalf(x)) < x / 1024.0
  {
    hide Unit, ToHalf, FromHalf, ExponentFrom;
    var e := ExponentFrom(x, 30);
    MantissaRange(x, e);
    var m := Mantissa(x, e);
    NormalFields(x, e, m);
    TruncationError(x, Unit(e), m, (1.0 + m as real / 1024.0) * Unit(e));
  }

  lemma NormalFields(x: real, e: nat, m: int)
    requires Unit(1) <= x < Unit(31) && e == ExponentFrom(x, 30) && m == Mantissa(x, e) && 0 <= m < 1024
    ensures FromHalf(ToHalf(x)) == Finite((1.0 + m as real / 1024.0) * Unit(e))
  {
    hide Unit, Mantissa, ExponentFrom;
    HalfFields(e, m, ToHalf(x));
  }

  lemma HalfFields(e: nat, m: int, h: nat)
    requires e <= 30 && 0 <= m < 1024 && h == e * 1024 + m
    ensures h / 32768 % 2 == 0 && h / 1024 % 32 == e && h % 1024 == m
  {
  }

  lemma TruncationError(x: real, u: real, m: int, t: real)
    requires u > 0.0 && x >= u && m == ((x / u - 1.0) * 1024.0).Floor && 0 <= m && t == (1.0 + m as real / 1024.0) * u
    ensures 0.0 < t <= x && x - t < x / 1024.0
  {
    var r := x / u;
    assert r * u == x;
    var f := 1.0 + m as real / 1024.0;
    assert f <= r < f + 1.0 / 1024.0;
    ScaleMono(u, f, r);
    PositiveProduct(u, f, f * u);
    var gap := r - f;
    PositiveProduct(u, 1.0 / 1024.0 - gap, u * (1.0 / 1024.0 - gap));
    assert u * (1.0 / 1024.0 - gap) == u / 1024.0 - (x - t);
  }

  /** The bits of normal numbers, as section 3.4 of IEEE 754-2008 lays them out: one sign bit, five of the
      exponent biased by fifteen, ten of the fraction. */
  lemma NormalBits(e: nat, m: nat, x: real)
    requires 1 <= e <= 30 && m < 1024 && x == (1.0 + m as real / 1024.0) * (Pow2(e) as real / 32768.0)
    ensures x >= 0.0 && ToHalf(x) == 1024 * e + m
    ensures FromHalf(1024 * e + m) == Finite(x) && FromHalf(32768 + 1024 * e + m) == Finite(-x)
  {
    hide Pow2;
    var u, f := Unit(e), 1.0 + m as real / 1024.0;
    assert x == f * u;
    hide Unit;
    EncodedBits(e, m, x, u);
    DecodedBits(e, m, x, u);
  }

  lemma EncodedBits(e: nat, m: nat, x: real, u: real)
    requires 1 <= e <= 30 && m < 1024 && u == Unit(e) && x == (1.0 + m as real / 1024.0) * u
    ensures x >= 0.0 && ToHalf(x) == 1024 * e + m
  {
    NormalRange(x, u, m as real / 1024.0);
    UnitDoubles(e);
    ExponentIs(x, e);
    MantissaIs(x, u, e, m);
    UnitsAround(e);
    hide Unit, ExponentFrom, Mantissa;
    assert ToHalf(x) == e * 1024 + Mantissa(x, e);
  }

  lemma DecodedBits(e: nat, m: nat, x: real, u: real)
    requires 1 <= e <= 30 && m < 1024 && u == Unit(e) && x == (1.0 + m as real / 1024.0) * u
    ensures FromHalf(1024 * e + m) == Finite(x) && FromHalf(32768 + 1024 * e + m) == Finite(-x)
  {
    hide Unit;
    HalfFields(e, m, 1024 * e + m);
    SignedFields(e, m, 32768 + 1024 * e + m);
  }

  lemma NormalRange(x: real, u: real, f: real)
    requires u > 0.0 && 0.0 <= f < 1.0 && x == (1.0 + f) * u
    ensures u <= x < 2.0 * u
  {
    ScaleMono(u, 1.0, 1.0 + f);
    PositiveProduct(u, 1.0 - f, u * (1.0 - f));
  }

  lemma UnitsAround(e: nat)
    requires 1 <= e <= 30
    ensures Unit(1) <= Unit(e) && Unit(e + 1) <= Unit(31)
  {
    Pow2Mono(1, e);
    Pow2Mono(e + 1, 31);
  }

  lemma ExponentIs(x: real, e: nat)
    requires 1 <= e <= 30 && Unit(e) <= x < Unit(e + 1)
    ensures ExponentFrom(x, 30) == e
  {
    hide ExponentFrom;
    var r := ExponentFrom(x, 30);
    if r < e {
      Pow2Mono(r + 1, e);
    } else if r > e {
      Pow2Mono(e + 1, r);
    }
  }

  lemma MantissaIs(x: real, u: real, e: nat, m: nat)
    requires u == Unit(e) && x == (1.0 + m as real / 1024.0) * u
    ensures Mantissa(x, e) == m
  {
    var f := 1.0 + m as real / 1024.0;
    QuotientOf(x, u, f);
    assert (f - 1.0) * 1024.0 == m as real;
  }

  lemma SignedFields(e: nat, m: int, h: nat)
    requires e <= 30 && 0 <= m < 1024 && h == 32768 + 1024 * e + m
    ensures h / 32768 % 2 == 1 && h / 1024 % 32 == e && h % 1024 == m
  {
  }
}
