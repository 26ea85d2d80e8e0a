/** The banded quantiser of the compressed cache (core/src/shannon_prime.c, `sp_band_config_init_ext`,
    `sp_band_quantize`, `sp_band_dequantize`, `sp_band_dequantize_partial`; core/include/shannon_prime.h,
    `sp_band_span`). Each band is a record: a half-precision scale, then its codes packed. Values are
    reals; codes, bytes and the stored scale are exact. */
module BandCodec {
  import opened BitPack
  import opened Digits
  import opened Half
  import opened IntArith
  import opened RealArith

  // ---------------------------------------------------------------- layout

  datatype BandConfig = BandConfig(headDim: nat, bandBits: seq<nat>, ternary: seq<bool>) {
    ghost predicate Valid() {
      && 1 <= |bandBits| == |ternary|
      && forall b :: 0 <= b < |bandBits| ==> 1 <= bandBits[b] <= 31
    }

    function Bands(): nat { |bandBits| }

    function BandSize(): nat
      requires Bands() > 0
    {
      QuotientNonNegative(headDim, Bands());
      headDim / Bands()
    }

    /** Bits a code of band b occupies: two for a ternary band, whatever its nominal width. */
    function EffBits(b: nat): nat
      requires b < Bands() == |ternary|
    {
      if ternary[b] then 2 else bandBits[b]
    }

    /** First coefficient of band b. */
    function Offset(b: nat): nat
      requires Bands() > 0
    {
      MulOrder(0, b, BandSize());
      Mul(b, BandSize())
    }

    /** Coefficients of band b; the last band absorbs the remainder. */
    function Size(b: nat): int
      requires b < Bands()
    {
      if b == Bands() - 1 then headDim - Offset(b) else BandSize()
    }

    /** Bytes of the record of band b. */
    function RecordBytes(b: nat): nat
      requires Valid() && b < Bands()
    {
      SizeNonNegative(this, b);
      2 + PackedSize(Size(b), EffBits(b))
    }

    /** First byte of the record of band b. */
    function RecordOffset(b: nat): nat
      requires Valid() && b <= Bands()
    {
      if b == 0 then 0 else RecordOffset(b - 1) + RecordBytes(b - 1)
    }

    function TotalBytes(): nat
      requires Valid()
    {
      RecordOffset(Bands())
    }
  }

  lemma SizeNonNegative(c: BandConfig, b: nat)
    requires b < c.Bands()
    ensures 0 <= c.Size(b) && c.Offset(b) + c.Size(b) <= c.headDim
    ensures c.Offset(0) == 0
    ensures b < c.Bands() - 1 ==> c.Size(b) == c.headDim / c.Bands() && c.Offset(b) + c.Size(b) == c.Offset(b + 1)
    ensures b == c.Bands() - 1 ==> c.Offset(b) + c.Size(b) == c.headDim
  {
    var n, s := c.Bands(), c.BandSize();
    BandsFit(c.headDim, n, s);
    MulOrder(b + 1, n, s);
    MulDistributes(s, b, 1);
    MulOne(s);
    MulCommutes(b, s);
  }

  lemma BandsFit(headDim: nat, n: nat, s: nat)
    requires n > 0 && s == headDim / n
    ensures Mul(n, s) <= headDim
  {
  }

  /** Records follow one another without gaps. */
  lemma {:induction false} RecordsOrdered(c: BandConfig, b: nat, e: nat)
    requires c.Valid() && b <= e <= c.Bands()
    ensures c.RecordOffset(b) <= c.RecordOffset(e)
    decreases e
  {
    if b < e {
      RecordsOrdered(c, b, e - 1);
    }
  }

  // ---------------------------------------------------------------- quantisation of one value

  /** `roundf`: to nearest, halves away from zero. */
  function RoundAway(v: real): int {
    if v >= 0.0 then (v + 0.5).Floor else -((0.5 - v).Floor)
  }

  function Clamp(q: int, lo: int, hi: int): int
    requires lo <= hi
  {
    if q > hi then hi else if q < lo then lo else q
  }

  /** The signed level of a regular band, in [-qoffset, qoffset - 1]. */
  function Level(v: real, inv: real, qoffset: nat): int
    requires qoffset > 0
  {
    Clamp(RoundAway(Times(v, inv)), -(qoffset as int), qoffset - 1)
  }

  function RegularCode(v: real, inv: real, bits: nat): nat
    requires bits >= 1
  {
    Low((Level(v, inv, Pow2(bits - 1)) + Pow2(bits - 1)) as nat, bits)
  }

  function TernaryCode(v: real, threshold: real): nat {
    if v > threshold then 2 else if v < -threshold then 0 else 1
  }

  /** The encoder's quantiser for a band whose stored scale is h. An infinite stored scale makes every
      inverse zero and every threshold infinite. */
  function CodeFor(h: nat, bits: nat, ternary: bool): real -> nat
    requires bits >= 1
  {
    if ternary then
      match FromHalf(h)
      case Finite(t) => (v: real) => TernaryCode(v, 0.5 * t)
      case NotFinite => (v: real) => 1
    else
      match FromHalf(h)
      case Finite(t) => (v: real) => RegularCode(v, if t > 0.0 then 1.0 / t else 0.0, bits)
      case NotFinite => (v: real) => RegularCode(v, 0.0, bits)
  }

  /** The decoder's value of code u. */
  function Dequant(u: nat, h: nat, bits: nat, ternary: bool): real
    requires bits >= 1
  {
    if ternary then Times((if u > 2 then 0 else u as int - 1) as real, Sanitised(h))
    else Times((u as int - Pow2(bits - 1)) as real, Sanitised(h))
  }

  /** The exact scale of a band with peak amax. */
  function ExactScale(amax: real, bits: nat, ternary: bool): real
    requires bits >= 1
  {
    if ternary then amax else if amax > 0.0 then amax / (Pow2(bits - 1) as real) else 0.0
  }

  lemma CodesFit(h: nat, bits: nat, ternary: bool, values: seq<real>)
    requires bits >= 1
    ensures AreDigits(Codes(values, CodeFor(h, bits, ternary)), if ternary then 2 else bits)
  {
    Pow2OfTwo();
    hide Pow2, Low, FromHalf, RegularCode;
    forall i | 0 <= i < |values|
      ensures Codes(values, CodeFor(h, bits, ternary))[i] < Pow2(if ternary then 2 else bits)
    {
      RegularCodeFits(values[i], bits);
    }
  }

  lemma Pow2OfTwo()
    ensures Pow2(2) == 4
  {
    assert Pow2(1) == 2;
  }

  lemma RegularCodeFits(v: real, bits: nat)
    requires bits >= 1
    ensures forall inv :: RegularCode(v, inv, bits) < Pow2(bits)
  {
    hide Low;
  }

  // ---------------------------------------------------------------- accuracy of one value

  /** No integer is nearer, and of two that are as near the one further from zero is taken. */
  lemma RoundAwayNearest(v: real, k: int)
    ensures Abs(RoundAway(v) as real - v) <= 0.5 && Abs(RoundAway(v) as real - v) <= Abs(k as real - v)
    ensures k != RoundAway(v) && Abs(k as real - v) == Abs(RoundAway(v) as real - v) ==>
              Abs(k as real) < Abs(RoundAway(v) as real)
  {
    if v >= 0.0 {
      FloorNearest(v, (v + 0.5).Floor, k);
    } else {
      FloorNearest(-v, (0.5 - v).Floor, -k);
      assert Abs(k as real - v) == Abs((-k) as real - -v);
      assert Abs(RoundAway(v) as real - v) == Abs((0.5 - v).Floor as real - -v);
    }
  }

  lemma FloorNearest(v: real, r: int, k: int)
    requires v >= 0.0 && r == (v + 0.5).Floor
    ensures Abs(r as real - v) <= 0.5 && Abs(r as real - v) <= Abs(k as real - v)
    ensures k != r && Abs(k as real - v) == Abs(r as real - v) ==> Abs(k as real) < Abs(r as real)
  {
    var rr, kk := r as real, k as real;
    assert rr <= v + 0.5 < rr + 1.0;
    NearestReal(v, rr, kk, r, k);
  }

  lemma NearestReal(v: real, rr: real, kk: real, r: int, k: int)
    requires v >= 0.0 && rr == r as real && kk == k as real && rr <= v + 0.5 < rr + 1.0
    ensures Abs(rr - v) <= 0.5 && Abs(rr - v) <= Abs(kk - v)
    ensures k != r && Abs(kk - v) == Abs(rr - v) ==> Abs(kk) < Abs(rr)
  {
    if k > r {
      assert kk >= rr + 1.0;
    } else if k < r {
      assert kk <= rr - 1.0;
      if rr - v == 0.5 {
        assert rr >= 0.5;
        assert r >= 1;
      }
    }
  }

  /** A level written for x: the nearest of all levels, in units of the scale. */
  lemma LevelNearest(v: real, Q: nat, l: int)
    requires Q > 0 && -(Q as int) <= l <= Q - 1
    ensures var level := Clamp(RoundAway(v), -(Q as int), Q - 1);
            && Abs(level as real - v) <= Abs(l as real - v)
            && (l != level && Abs(level as real - v) == Abs(l as real - v) ==> Abs(l as real) < Abs(level as real))
  {
    RoundAwayNearest(v, l);
    hide RoundAway;
  }

  /** How far the value of a level is from v: half a unit, or the distance past the first or last level. */
  lemma LevelDistance(v: real, Q: nat)
    requires Q > 0
    ensures Abs(Clamp(RoundAway(v), -(Q as int), Q - 1) as real - v) <= Max(0.5, Max(v - (Q - 1) as real, -v - Q as real))
  {
    RoundAwayNearest(v, 0);
    hide RoundAway;
  }

  /** One regular coefficient: half a step, or the distance past the last or the first level. */
  function RegularBound(x: real, t: real, Q: nat): real {
    Max(0.5 * t, Max(x - Times(Q as real - 1.0, t), -x - Times(Q as real, t)))
  }

  lemma RegularError(x: real, t: real, inv: real, Q: nat)
    requires Q > 0 && t >= 0.0
    requires if t > 0.0 then Times(t, inv) == 1.0 else inv == 0.0
    ensures Abs(Times(Level(x, inv, Q) as real, t) - x) <= RegularBound(x, t, Q)
  {
    hide Times, Clamp, RoundAway;
    if t > 0.0 {
      var v := Times(x, inv);
      UndoScale(x, t, inv, v);
      LevelDistance(v, Q);
      var level := Level(x, inv, Q);
      DistanceScaled(level as real, v, t, x);
      BoundScaled(v, Q as real, t, x);
    } else {
      ZeroScale(x, inv, t, Level(x, inv, Q), Q as real);
    }
  }

  lemma ZeroScale(x: real, inv: real, t: real, level: int, Q: real)
    requires inv == 0.0 && t == 0.0
    ensures Times(level as real, t) == 0.0 && Times(Q, t) == 0.0 && Times(Q - 1.0, t) == 0.0
  {
  }

  /** A distance in units of the scale, scaled. */
  lemma DistanceScaled(a: real, v: real, t: real, x: real)
    requires t > 0.0 && Times(v, t) == x
    ensures Abs(Times(a, t) - x) == Times(t, Abs(a - v))
  {
    TimesDifference(a, v, t, a - v);
    AbsOfProduct(t, a - v);
  }

  lemma BoundScaled(v: real, Q: real, t: real, x: real)
    requires t > 0.0 && Times(v, t) == x
    ensures Times(t, Max(0.5, Max(v - (Q - 1.0), -v - Q))) == Max(0.5 * t, Max(x - Times(Q - 1.0, t), -x - Times(Q, t)))
    ensures forall d :: 0.0 <= d <= Max(0.5, Max(v - (Q - 1.0), -v - Q)) ==>
              Times(t, d) <= Times(t, Max(0.5, Max(v - (Q - 1.0), -v - Q)))
  {
    assert Times(t, v - (Q - 1.0)) == x - Times(Q - 1.0, t);
    assert Times(t, -v - Q) == -x - Times(Q, t);
    MaxScaled(t, v - (Q - 1.0), -v - Q);
    MaxScaled(t, 0.5, Max(v - (Q - 1.0), -v - Q));
    forall d | 0.0 <= d <= Max(0.5, Max(v - (Q - 1.0), -v - Q))
      ensures Times(t, d) <= Times(t, Max(0.5, Max(v - (Q - 1.0), -v - Q)))
    {
      ScaleMono(t, d, Max(0.5, Max(v - (Q - 1.0), -v - Q)));
    }
  }

  lemma MaxScaled(t: real, a: real, b: real)
    requires t > 0.0
    ensures Times(t, Max(a, b)) == Max(Times(t, a), Times(t, b))
  {
    if a >= b {
      ScaleMono(t, b, a);
    } else {
      ScaleMono(t, a, b);
    }
  }

  lemma UndoScale(x: real, t: real, inv: real, v: real)
    requires v == Times(x, inv) && Times(t, inv) == 1.0
    ensures Times(v, t) == x
  {
    assert (x * inv) * t == x * (t * inv);
  }

  lemma TimesDifference(q: real, v: real, t: real, d: real)
    requires d == q - v
    ensures Times(q, t) - Times(v, t) == Times(t, d)
  {
  }

  /** One ternary coefficient: half the scale, or the distance past it. */
  lemma TernaryError(x: real, t: real, u: nat)
    requires 0.0 <= t && u == TernaryCode(x, 0.5 * t)
    ensures Abs(Times((u as int - 1) as real, t) - x) <= Max(0.5 * t, Abs(x) - t)
  {
  }

  /** How far the decoded value of x, in a band of peak amax, can be from x: half a step, or the distance past
      the last level. */
  function ValueBound(x: real, amax: real, bits: nat, ternary: bool): real
    requires amax >= 0.0 && bits >= 1
  {
    ScaleNonNegative(amax, bits, ternary);
    var t := Sanitised(ToHalf(ExactScale(amax, bits, ternary)));
    if ternary then Max(0.5 * t, Abs(x) - t) else RegularBound(x, t, Pow2(bits - 1))
  }

  lemma ScaleNonNegative(amax: real, bits: nat, ternary: bool)
    requires amax >= 0.0 && bits >= 1
    ensures ExactScale(amax, bits, ternary) >= 0.0
    ensures !ternary ==> Times(Pow2(bits - 1) as real, ExactScale(amax, bits, ternary)) == amax
  {
  }

  /** What the encoder writes for x, as a level. */
  lemma WrittenLevel(x: real, bits: nat, h: nat, inv: real)
    requires bits >= 1 && Sanitised(h) >= 0.0
    requires inv == if Sanitised(h) > 0.0 then 1.0 / Sanitised(h) else 0.0
    ensures CodeFor(h, bits, false)(x) == Level(x, inv, Pow2(bits - 1)) + Pow2(bits - 1)
  {
    hide Pow2, Low, RoundAway, FromHalf, Times;
    CodeRecoversLevel(Level(x, inv, Pow2(bits - 1)), bits);
    hide Level;
    match FromHalf(h) {
      case NotFinite =>
        assert CodeFor(h, bits, false)(x) == RegularCode(x, 0.0, bits);
      case Finite(t) =>
        assert CodeFor(h, bits, false)(x) == RegularCode(x, if t > 0.0 then 1.0 / t else 0.0, bits);
    }
  }

  /** Encoding one value and decoding it is within its bound, for every scale: normal, flushed to zero or
      overflowed to infinity. */
  lemma ValueError(x: real, amax: real, bits: nat, ternary: bool, h: nat)
    requires bits >= 1 && ScaleOk(amax, bits, ternary, h)
    ensures Abs(Dequant(CodeFor(h, bits, ternary)(x), h, bits, ternary) - x) <= ValueBound(x, amax, bits, ternary)
  {
    hide ToHalf, FromHalf, Times, Pow2, Low;
    ScaleNonNegative(amax, bits, ternary);
    var t := Sanitised(h);
    StoredScale(ExactScale(amax, bits, ternary));
    if ternary {
      TernaryValueError(x, h, bits);
    } else {
      var Q := Pow2(bits - 1);
      var inv := if t > 0.0 then 1.0 / t else 0.0;
      if t > 0.0 {
        Inverse(t, inv);
      }
      WrittenLevel(x, bits, h, inv);
      RegularError(x, t, inv, Q);
      assert Dequant(Level(x, inv, Q) + Q, h, bits, false) == Times(Level(x, inv, Q) as real, t);
    }
  }

  lemma TernaryValueError(x: real, h: nat, bits: nat)
    requires bits >= 1 && Sanitised(h) >= 0.0
    ensures var t := Sanitised(h);
            Abs(Dequant(CodeFor(h, bits, true)(x), h, bits, true) - x) <= Max(0.5 * t, Abs(x) - t)
  {
    hide FromHalf, Times;
    match FromHalf(h) {
      case NotFinite =>
        ZeroLevel(1, Sanitised(h));
      case Finite(t) =>
        TernaryError(x, t, TernaryCode(x, 0.5 * t));
    }
  }

  /** No code decodes nearer to x than the one written. A regular band breaks ties away from zero, a ternary
      one towards it. */
  lemma BestCode(x: real, bits: nat, ternary: bool, h: nat, u: nat)
    requires bits >= 1 && Sanitised(h) >= 0.0 && u < Pow2(if ternary then 2 else bits)
    ensures var best, other := Dequant(CodeFor(h, bits, ternary)(x), h, bits, ternary), Dequant(u, h, bits, ternary);
            && Abs(best - x) <= Abs(other - x)
            && (Abs(best - x) == Abs(other - x) ==> if ternary then Abs(best) <= Abs(other) else Abs(other) <= Abs(best))
  {
    hide FromHalf, Times, Pow2, Low;
    var t := Sanitised(h);
    if ternary {
      BestTernaryCode(x, bits, h, u);
    } else {
      var Q := Pow2(bits - 1);
      var inv := if t > 0.0 then 1.0 / t else 0.0;
      WrittenLevel(x, bits, h, inv);
      TwiceHalf(bits);
      BestLevel(x, t, inv, Q, u as int - Q);
    }
  }

  lemma TwiceHalf(bits: nat)
    requires bits >= 1
    ensures Pow2(bits) == 2 * Pow2(bits - 1) && Pow2(bits - 1) > 0
  {
  }

  lemma BestLevel(x: real, t: real, inv: real, Q: nat, l: int)
    requires Q > 0 && t >= 0.0 && inv == (if t > 0.0 then 1.0 / t else 0.0) && -(Q as int) <= l <= Q - 1
    ensures var best, other := Times(Level(x, inv, Q) as real, t), Times(l as real, t);
            && Abs(best - x) <= Abs(other - x)
            && (Abs(best - x) == Abs(other - x) ==> Abs(other) <= Abs(best))
  {
    hide Times, Clamp, RoundAway;
    var level := Level(x, inv, Q);
    if t > 0.0 {
      Inverse(t, inv);
      var v := Times(x, inv);
      UndoScale(x, t, inv, v);
      LevelNearest(v, Q, l);
      DistanceScaled(level as real, v, t, x);
      DistanceScaled(l as real, v, t, x);
      ScaledAbs(level as real, t);
      ScaledAbs(l as real, t);
      OrderKept(t, Abs(level as real - v), Abs(l as real - v));
      if Abs(level as real - v) == Abs(l as real - v) && l != level {
        OrderKept(t, Abs(l as real), Abs(level as real));
      }
    } else {
      ZeroScale(x, inv, t, level, Q as real);
      ZeroScale(x, inv, t, l, Q as real);
    }
  }

  lemma ScaledAbs(a: real, t: real)
    requires t > 0.0
    ensures Abs(Times(a, t)) == Times(t, Abs(a))
  {
    AbsOfProduct(t, a);
  }

  lemma OrderKept(t: real, a: real, b: real)
    requires t > 0.0 && a <= b
    ensures Times(t, a) <= Times(t, b) && (a < b ==> Times(t, a) < Times(t, b))
  {
    ScaledOrder(t, a, b);
    ScaleMono(t, a, b);
  }

  lemma BestTernaryCode(x: real, bits: nat, h: nat, u: nat)
    requires bits >= 1 && Sanitised(h) >= 0.0
    ensures var best, other := Dequant(CodeFor(h, bits, true)(x), h, bits, true), Dequant(u, h, bits, true);
            && Abs(best - x) <= Abs(other - x) && (Abs(best - x) == Abs(other - x) ==> Abs(best) <= Abs(other))
  {
    hide FromHalf;
  }

  /** Where the scale is a normal number a band of peak amax loses at most half of its exact step, and a
      thousandth of the peak, on every coefficient up to half a step below the peak; one step above that. */
  lemma NormalBound(x: real, amax: real, bits: nat, ternary: bool)
    requires bits >= 1 && Abs(x) <= amax
    requires (ScaleNonNegative(amax, bits, ternary); Unit(1) <= ExactScale(amax, bits, ternary) < Unit(31))
    ensures ternary ==> ValueBound(x, amax, bits, true) <= amax / 2.0
    ensures !ternary ==>
              var step := amax / Pow2(bits - 1) as real;
              ValueBound(x, amax, bits, false) <= (if x <= amax - step / 2.0 then step / 2.0 else step) + amax / 1024.0
  {
    hide ToHalf, FromHalf, Pow2, Sanitised;
    ScaleNonNegative(amax, bits, ternary);
    var s := ExactScale(amax, bits, ternary);
    var t := Sanitised(ToHalf(s));
    StoredScale(s);
    if !ternary {
      var Q := Pow2(bits - 1);
      StepOfPeak(amax, bits, s);
      RegularNormal(x, amax, s, t, Q);
    }
  }

  lemma StepOfPeak(amax: real, bits: nat, s: real)
    requires bits >= 1 && amax >= 0.0 && s == ExactScale(amax, bits, false) > 0.0
    ensures s == amax / Pow2(bits - 1) as real && Times(Pow2(bits - 1) as real, s) == amax
  {
    ScaleNonNegative(amax, bits, false);
  }

  lemma RegularNormal(x: real, amax: real, s: real, t: real, Q: nat)
    requires Q > 0 && Abs(x) <= amax && Times(Q as real, s) == amax && 0.0 < t <= s && s - t < s / 1024.0
    ensures RegularBound(x, t, Q) <= (if x <= amax - s / 2.0 then s / 2.0 else s) + amax / 1024.0
  {
    var loss := s - t;
    Lost(Q as real, s, loss);
    assert Times(Q as real, t) == amax - Times(Q as real, loss);
    assert Times(Q as real - 1.0, t) == Times(Q as real, t) - t;
    hide Times;
  }

  lemma Lost(Q: real, s: real, loss: real)
    requires Q >= 1.0 && s > 0.0 && 0.0 <= loss < s / 1024.0
    ensures 0.0 <= Times(Q, loss) <= Times(Q, s) / 1024.0 && loss <= Times(Q, loss)
  {
    ScaleMono(Q, loss, s / 1024.0);
    ScaleMono(Q, 0.0, loss);
    ScaleMono(loss, 1.0, Q);
    assert Q * (s / 1024.0) == Times(Q, s) / 1024.0;
  }

  ghost predicate ScaleOk(amax: real, bits: nat, ternary: bool, h: nat)
    requires bits >= 1
  {
    amax >= 0.0 && (ScaleNonNegative(amax, bits, ternary); h == ToHalf(ExactScale(amax, bits, ternary)))
  }

  lemma Inverse(t: real, inv: real)
    requires t > 0.0 && inv == 1.0 / t
    ensures Times(t, inv) == 1.0
  {
  }

  lemma ZeroLevel(u: nat, t: real)
    requires u == 1
    ensures Times((u as int - 1) as real, t) == 0.0
  {
  }

  /** The mask never cuts a level: it lies in [-2^(bits-1), 2^(bits-1)). */
  lemma CodeRecoversLevel(level: int, bits: nat)
    requires bits >= 1 && -(Pow2(bits - 1) as int) <= level < Pow2(bits - 1)
    ensures Low((level + Pow2(bits - 1)) as nat, bits) == level + Pow2(bits - 1)
  {
    assert Pow2(bits) == 2 * Pow2(bits - 1);
    DivModUnique(level + Pow2(bits - 1), Pow2(bits), 0, level + Pow2(bits - 1));
  }
}
