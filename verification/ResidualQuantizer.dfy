/** The residual quantiser and the choice of the spinor sheet (core/src/shannon_prime_sqfree.c,
    `sp_quantize_residual`, `sp_dequantize_residual`, and the deviations of `sp_sqfree_compress_one`). */
module ResidualQuantizer {
  import opened Digits
  import opened RealArith

  /** The C cast of a real to an integer: toward zero. */
  function Truncate(x: real): int {
    if x >= 0.0 then x.Floor else -((-x).Floor)
  }

  function Center(nbits: nat): real {
    (Pow2(nbits) - 1) as real / 2.0
  }

  /** The step between levels for a saturation value. */
  function StepOf(sat: real, nbits: nat): real
    requires nbits >= 1
  {
    Times(2.0, sat) / (Pow2(nbits) - 1) as real
  }

  /** The encoder saturates at mag * nbits, but at `tiny` for the smallest magnitude. */
  function EncoderSat(mag: real, nbits: nat, tiny: real): real {
    if mag > tiny then Times(mag, nbits as real) else tiny
  }

  function DecoderSat(mag: real, nbits: nat): real {
    Times(mag, nbits as real)
  }

  function QuantizeLevel(v: real, nbits: nat, mag: real, tiny: real): (level: nat)
    requires nbits >= 1 && tiny > 0.0
    ensures level < Pow2(nbits)
  {
    SatPositive(mag, nbits, tiny);
    StepPositive(EncoderSat(mag, nbits, tiny), nbits);
    var q := Truncate(v / StepOf(EncoderSat(mag, nbits, tiny), nbits) + Center(nbits) + 0.5);
    if q < 0 then 0 else if q >= Pow2(nbits) then Pow2(nbits) - 1 else q
  }

  function DequantizeLevel(level: nat, nbits: nat, mag: real): real
    requires nbits >= 1
  {
    Times(level as real - Center(nbits), StepOf(DecoderSat(mag, nbits), nbits))
  }

  lemma SatPositive(mag: real, nbits: nat, tiny: real)
    requires nbits >= 1 && tiny > 0.0
    ensures EncoderSat(mag, nbits, tiny) > 0.0
  {
    if mag > tiny {
      PositiveProduct(mag, nbits as real, mag * nbits as real);
    }
  }

  lemma AtLeastTwo(nbits: nat)
    requires nbits >= 1
    ensures Pow2(nbits) >= 2
  {
    assert Pow2(nbits) == 2 * Pow2(nbits - 1);
  }

  lemma StepPositive(sat: real, nbits: nat)
    requires nbits >= 1 && sat > 0.0
    ensures StepOf(sat, nbits) > 0.0
    ensures Times(Center(nbits), StepOf(sat, nbits)) == sat
  {
    AtLeastTwo(nbits);
    CenterTimesStep((Pow2(nbits) - 1) as real, sat, Times(2.0, sat));
  }

  lemma CenterTimesStep(n: real, sat: real, twice: real)
    requires n > 0.0 && sat > 0.0 && twice == 2.0 * sat
    ensures twice / n > 0.0
    ensures Times(n / 2.0, twice / n) == sat
  {
    var step := twice / n;
    assert step * n == twice;
    assert (n / 2.0) * step == step * n / 2.0;
    if step <= 0.0 {
      ScaleMono(n, step, 0.0);
    }
  }

  /** Half a step, or the distance past saturation. */
  function SaturatingBound(v: real, nbits: nat, sat: real): real
    requires nbits >= 1
  {
    Max(StepOf(sat, nbits) / 2.0, Abs(v) - sat)
  }

  /** The error of one value through quantiser and dequantiser. */
  function QuantizerError(v: real, nbits: nat, mag: real, tiny: real): real
    requires nbits >= 1 && tiny > 0.0
  {
    Abs(DequantizeLevel(QuantizeLevel(v, nbits, mag, tiny), nbits, mag) - v)
  }

  /** Encoder and decoder saturate alike. */
  predicate SaturatesAlike(nbits: nat, mag: real, tiny: real) {
    mag > tiny || nbits == 1
  }

  /** What the error can be: the saturating bound where both sides saturate alike; at the smallest magnitude
      with more than one bit the decoder stretches everything by the number of bits. */
  function ErrorLimit(v: real, nbits: nat, mag: real, tiny: real): real
    requires nbits >= 1
  {
    if SaturatesAlike(nbits, mag, tiny) then SaturatingBound(v, nbits, DecoderSat(mag, nbits))
    else Times(nbits as real, SaturatingBound(v, nbits, tiny)) + Times(nbits as real - 1.0, Abs(v))
  }

  /** The level decoded with the encoder's own step is within the saturating bound. */
  lemma OwnStepError(v: real, nbits: nat, mag: real, tiny: real)
    requires nbits >= 1 && tiny > 0.0
    ensures var sat := EncoderSat(mag, nbits, tiny);
            Abs(Times(QuantizeLevel(v, nbits, mag, tiny) as real - Center(nbits), StepOf(sat, nbits)) - v)
            <= SaturatingBound(v, nbits, sat)
  {
    hide Pow2, Center, StepOf, Times, Truncate, EncoderSat;
    var sat := EncoderSat(mag, nbits, tiny);
    SatPositive(mag, nbits, tiny);
    StepPositive(sat, nbits);
    AtLeastTwo(nbits);
    var step, center := StepOf(sat, nbits), Center(nbits);
    var r := v / step;
    Rounded(r + center, Truncate(r + center + 0.5));
    CenterValue(nbits);
    LevelError(v, step, r, center, sat, Pow2(nbits), Truncate(r + center + 0.5), QuantizeLevel(v, nbits, mag, tiny));
  }

  /** One value through quantiser and dequantiser, for every magnitude the encoder stores. */
  lemma QuantizeError(v: real, nbits: nat, mag: real, tiny: real)
    requires nbits >= 1 && tiny > 0.0 && mag >= tiny
    ensures QuantizerError(v, nbits, mag, tiny) <= ErrorLimit(v, nbits, mag, tiny)
  {
    hide QuantizeLevel, Center, StepOf, Times, SaturatingBound;
    OwnStepError(v, nbits, mag, tiny);
    if SaturatesAlike(nbits, mag, tiny) {
      SameSat(mag, nbits, tiny);
    } else {
      var k := QuantizeLevel(v, nbits, mag, tiny) as real - Center(nbits);
      StretchedStep(nbits, tiny);
      Stretched(k, StepOf(tiny, nbits), nbits as real, v, SaturatingBound(v, nbits, tiny));
    }
  }

  /** In closed form: half of one step out of 2^nbits - 1 over the saturated range, or the excess over it. */
  lemma SaturatedLimit(v: real, nbits: nat, mag: real, tiny: real)
    requires nbits >= 1 && tiny > 0.0 && (mag > tiny || (mag >= tiny && nbits == 1))
    ensures Pow2(nbits) >= 2
    ensures ErrorLimit(v, nbits, mag, tiny) == Max(mag * nbits as real / (Pow2(nbits) - 1) as real, Abs(v) - mag * nbits as real)
  {
    AtLeastTwo(nbits);
    HalfQuotient(mag * nbits as real, (Pow2(nbits) - 1) as real);
  }

  lemma HalfQuotient(sat: real, d: real)
    requires d > 0.0
    ensures Times(2.0, sat) / d / 2.0 == sat / d
  {
    var q := sat / d;
    assert q * d == sat;
    assert (2.0 * q) * d == Times(2.0, sat);
    assert Times(2.0, sat) / d == 2.0 * q;
  }

  lemma StretchedStep(nbits: nat, tiny: real)
    requires nbits >= 1
    ensures StepOf(DecoderSat(tiny, nbits), nbits) == Times(nbits as real, StepOf(tiny, nbits))
  {
    AtLeastTwo(nbits);
    QuotientStretched(2.0, tiny, nbits as real, (Pow2(nbits) - 1) as real);
  }

  lemma QuotientStretched(two: real, t: real, n: real, d: real)
    requires d > 0.0
    ensures Times(two, Times(t, n)) / d == Times(n, Times(two, t) / d)
  {
    var q := (two * t) / d;
    assert q * d == two * t;
    assert (n * q) * d == n * (q * d);
    assert two * (t * n) == (n * q) * d;
  }

  lemma Stretched(k: real, step: real, n: real, v: real, bound: real)
    requires n >= 1.0 && Abs(Times(k, step) - v) <= bound
    ensures Abs(Times(k, Times(n, step)) - v) <= Times(n, bound) + Times(n - 1.0, Abs(v))
  {
    hide Times;
    var y := Times(k, step);
    TimesSwap(k, n, step);
    StretchParts(n, y, v);
    TimesBound(n, y - v, bound);
    TimesBound(n - 1.0, v, Abs(v));
  }

  lemma TimesSwap(k: real, n: real, step: real)
    ensures Times(k, Times(n, step)) == Times(n, Times(k, step))
  {
    assert k * (n * step) == n * (k * step);
  }

  lemma StretchParts(n: real, y: real, v: real)
    ensures Times(n, y) - v == Times(n, y - v) + Times(n - 1.0, v)
  {
  }

  lemma TimesBound(n: real, x: real, bound: real)
    requires n >= 0.0 && Abs(x) <= bound
    ensures Abs(Times(n, x)) <= Times(n, bound)
  {
    AbsProduct(n, x, n, bound);
  }

  /** The saturating bound holds for every value exactly when encoder and decoder saturate alike. */
  lemma SaturatingBoundIff(nbits: nat, mag: real, tiny: real)
    requires nbits >= 1 && tiny > 0.0 && mag >= tiny
    ensures (forall v: real :: QuantizerError(v, nbits, mag, tiny) <= SaturatingBound(v, nbits, DecoderSat(mag, nbits)))
            <==> SaturatesAlike(nbits, mag, tiny)
  {
    hide QuantizerError, SaturatingBound, DecoderSat;
    if SaturatesAlike(nbits, mag, tiny) {
      forall v: real
        ensures QuantizerError(v, nbits, mag, tiny) <= SaturatingBound(v, nbits, DecoderSat(mag, nbits))
      {
        QuantizeError(v, nbits, mag, tiny);
      }
    } else {
      TinyValueIsStretched(nbits, tiny);
    }
  }

  /** At the smallest magnitude, with two bits or more, that magnitude itself breaks the bound. */
  lemma TinyValueIsStretched(nbits: nat, tiny: real)
    requires nbits >= 2 && tiny > 0.0
    ensures QuantizerError(tiny, nbits, tiny, tiny) == Times(nbits as real - 1.0, tiny)
    ensures QuantizerError(tiny, nbits, tiny, tiny) > SaturatingBound(tiny, nbits, DecoderSat(tiny, nbits))
  {
    hide Pow2, Center, StepOf, Times, Truncate, QuantizeLevel;
    var L, step, center := Pow2(nbits), StepOf(tiny, nbits), Center(nbits);
    AtLeastFour(nbits);
    CenterValue(nbits);
    StepPositive(tiny, nbits);
    TopLevel(nbits, tiny);
    assert (L - 1) as real - center == center;
    StretchedStep(nbits, tiny);
    StretchTop(center, step, nbits as real, tiny, (L - 1) as real);
  }

  lemma AtLeastFour(nbits: nat)
    requires nbits >= 2
    ensures Pow2(nbits) >= 4
  {
    AtLeastTwo(nbits - 1);
  }

  /** The magnitude tiny is encoded at the top level. */
  lemma TopLevel(nbits: nat, tiny: real)
    requires nbits >= 1 && tiny > 0.0
    ensures QuantizeLevel(tiny, nbits, tiny, tiny) == Pow2(nbits) - 1
  {
    hide Pow2, Center, StepOf, Times;
    var step, center := StepOf(tiny, nbits), Center(nbits);
    AtLeastTwo(nbits);
    CenterValue(nbits);
    StepPositive(tiny, nbits);
    CenterQuotient(center, step, tiny);
  }

  lemma CenterQuotient(center: real, step: real, sat: real)
    requires step > 0.0 && Times(center, step) == sat
    ensures sat / step == center
  {
    assert (sat / step) * step == center * step;
    var d := sat / step - center;
    assert d * step == 0.0;
    ZeroProduct(step, d);
  }

  lemma StretchTop(center: real, step: real, n: real, tiny: real, top: real)
    requires n >= 2.0 && tiny > 0.0 && step > 0.0 && Times(center, step) == tiny && 2.0 * center == top && top >= 3.0
    ensures Abs(Times(center, Times(n, step)) - tiny) == Times(n - 1.0, tiny)
    ensures Times(n - 1.0, tiny) > Max(Times(n, step) / 2.0, Abs(tiny) - Times(tiny, n))
  {
    hide Times;
    TimesSwap(center, n, step);
    TopStep(center, step, tiny, top);
    StretchGap(n, step, tiny);
  }

  lemma TopStep(center: real, step: real, tiny: real, top: real)
    requires step > 0.0 && Times(center, step) == tiny && 2.0 * center == top && top >= 3.0
    ensures 3.0 * step <= 2.0 * tiny
  {
    assert top * step == 2.0 * (center * step);
    ScaleMono(step, 3.0, top);
  }

  lemma StretchGap(n: real, step: real, tiny: real)
    requires n >= 2.0 && tiny > 0.0 && 3.0 * step <= 2.0 * tiny
    ensures Times(n, tiny) - tiny == Times(n - 1.0, tiny) > 0.0
    ensures Times(n - 1.0, tiny) > Times(n, step) / 2.0 && Times(n - 1.0, tiny) > tiny - Times(tiny, n)
  {
    StretchedProducts(n, tiny);
    StretchedSteps(n, step, tiny);
    hide Times;
  }

  lemma StretchedProducts(n: real, tiny: real)
    requires n >= 2.0 && tiny > 0.0
    ensures Times(n - 1.0, tiny) == Times(n, tiny) - tiny && Times(tiny, n) == Times(n, tiny) >= 2.0 * tiny
  {
    var nt := n * tiny;
    assert (n - 1.0) * tiny == nt - tiny;
    ScaleMono(tiny, 2.0, n);
  }

  lemma StretchedSteps(n: real, step: real, tiny: real)
    requires n >= 0.0 && 3.0 * step <= 2.0 * tiny
    ensures 3.0 * Times(n, step) <= 2.0 * Times(n, tiny)
  {
    ScaleMono(n, 3.0 * step, 2.0 * tiny);
    assert n * (3.0 * step) == 3.0 * (n * step) && n * (2.0 * tiny) == 2.0 * (n * tiny);
  }

  lemma CenterValue(nbits: nat)
    ensures 2.0 * Center(nbits) == (Pow2(nbits) - 1) as real
  {
  }

  lemma SameSat(mag: real, nbits: nat, tiny: real)
    requires nbits >= 1 && tiny > 0.0 && (mag > tiny || (mag == tiny && nbits == 1))
    ensures EncoderSat(mag, nbits, tiny) == DecoderSat(mag, nbits)
  {
  }

  /** Truncating after adding a half is within half of any value from -1/2 on, and not positive below. */
  lemma Rounded(q: real, t: int)
    requires t == Truncate(q + 0.5)
    ensures q >= -0.5 ==> t >= 0 && -0.5 <= t as real - q <= 0.5
    ensures q < -0.5 ==> t <= 0
  {
  }

  lemma LevelError(v: real, step: real, r: real, center: real, sat: real, L: nat, q: int, level: nat)
    requires step > 0.0 && r == v / step && Times(center, step) == sat && L >= 2 && 2.0 * center == (L - 1) as real
    requires r + center >= -0.5 ==> q >= 0 && -0.5 <= q as real - (r + center) <= 0.5
    requires r + center < -0.5 ==> q <= 0
    requires level == if q < 0 then 0 else if q >= L then L - 1 else q
    ensures Abs(Times(level as real - center, step) - v) <= Max(step / 2.0, Abs(v) - sat)
  {
    hide Times;
    Quotient(v, step, r);
    if r + center < -0.5 {
      // level 0: the value is below -sat
      BelowRail(r, center, step, sat, v);
      Negated(center, step);
    } else if q >= L {
      // level L - 1: the value is above sat
      AboveRail(r, center, step, sat, v, q, L);
      assert (L - 1) as real - center == center;
    } else {
      var e := q as real - (r + center);
      Difference(level as real - center, r, e, step);
      HalfStep(step, e);
    }
  }

  lemma Quotient(v: real, step: real, r: real)
    requires step > 0.0 && r == v / step
    ensures Times(r, step) == v
  {
  }

  lemma Negated(a: real, b: real)
    ensures Times(-a, b) == -Times(a, b) && Times(0.0 - a, b) == -Times(a, b)
  {
  }

  lemma Difference(a: real, b: real, e: real, step: real)
    requires a - b == e
    ensures Times(a, step) - Times(b, step) == Times(step, e)
  {
  }

  lemma HalfStep(step: real, e: real)
    requires -0.5 <= e <= 0.5 && step > 0.0
    ensures -(step / 2.0) <= Times(step, e) <= step / 2.0
  {
    AbsProduct(step, e, step, 0.5);
  }

  lemma BelowRail(r: real, center: real, step: real, sat: real, v: real)
    requires step > 0.0 && r + center < -0.5 && Times(r, step) == v && Times(center, step) == sat
    ensures v < -sat
  {
    Difference(r, -center, r + center, step);
    Negated(center, step);
    PositiveProduct(step, -(r + center), step * -(r + center));
    assert Times(step, r + center) == -(step * -(r + center));
  }

  lemma AboveRail(r: real, center: real, step: real, sat: real, v: real, q: int, L: nat)
    requires step > 0.0 && q >= L && q as real - (r + center) <= 0.5 && 2.0 * center == (L - 1) as real
    requires Times(r, step) == v && Times(center, step) == sat
    ensures v > sat
  {
    Difference(r, center, r - center, step);
    assert q as real >= L as real && (L - 1) as real == L as real - 1.0;
    PositiveProduct(step, r - center, step * (r - center));
  }

  // ---------------------------------------------------------------- the sheet

  /** The second sheet is taken when predicting with the opposite sign is closer. */
  predicate SecondSheet(actual: real, pred: real, spinor: bool) {
    spinor && Abs(actual + pred) < Abs(actual - pred)
  }

  function Deviation(actual: real, pred: real, spinor: bool): real {
    if SecondSheet(actual, pred, spinor) then actual + pred else actual - pred
  }

  /** With the spinor the deviation is the smaller of the two. */
  lemma DeviationIsLeast(actual: real, pred: real)
    ensures var plus, minus := Abs(actual - pred), Abs(actual + pred);
            Abs(Deviation(actual, pred, true)) == if minus < plus then minus else plus
  {
  }

  /** Decoding one residual: whichever sheet was taken, the errors of prediction and deviation add. */
  lemma ResidualError(actual: real, pred: real, pred': real, dev': real, spinor: bool, slack: real, quant: real)
    requires Abs(pred' - pred) <= slack && Abs(dev' - Deviation(actual, pred, spinor)) <= quant
    ensures Abs((if SecondSheet(actual, pred, spinor) then -pred' else pred') + dev' - actual) <= slack + quant
  {
  }
}
