/** The squarefree codec (core/src/shannon_prime_sqfree.c, `sp_sqfree_compress_one`,
    `sp_sqfree_reconstruct_one`) between its two transforms: the skeleton goes through the band codec,
    every residual coefficient is predicted from the skeleton and its deviation quantised. */
module SqfreeCodecs {
  import opened BandCodec
  import opened BandRecords
  import opened BitPack
  import opened Compression
  import opened Digits
  import opened IntArith
  import opened KnightMasks
  import opened MobiusMasks
  import opened Permutations
  import opened Primes
  import opened RankSort
  import opened RealArith
  import opened ResidualQuantizer
  import opened Sums

  /** The float the magnitude is kept in: its bytes, and the value of given bytes. */
  datatype FloatFormat = FloatFormat(bytes: real -> seq<byte>, value: seq<byte> -> real, tiny: real) {
    /** Rounding to the format is settled after one pass. */
    ghost predicate Valid() {
      && tiny > 0.0 && value(bytes(tiny)) == tiny
      && forall m: real :: |bytes(m)| == 4 && value(bytes(value(bytes(m)))) == value(bytes(m))
    }

    function Round(m: real): real {
      value(bytes(m))
    }
  }

  // ---------------------------------------------------------------- values along the way

  ghost function Picked(x: seq<real>, idx: seq<int>): (y: seq<real>)
    requires forall i :: i in idx ==> 0 <= i < |x|
    ensures |y| == |idx|
  {
    seq(|idx|, s requires 0 <= s < |idx| => (assert idx[s] in idx; x[idx[s]]))
  }

  ghost function Predicted(skel: seq<int>, i: int, v: seq<real>): real
    requires i >= 0
  {
    RowSum(Row(skel, i), AsVector(v))
  }

  ghost function Predictions(skel: seq<int>, res: seq<int>, v: seq<real>): (p: seq<real>)
    requires forall i :: i in res ==> i >= 0
    ensures |p| == |res|
  {
    seq(|res|, k requires 0 <= k < |res| => (assert res[k] in res; Predicted(skel, res[k], v)))
  }

  ghost function Deviations(actual: seq<real>, pred: seq<real>, spinor: bool): (d: seq<real>)
    requires |actual| == |pred|
    ensures |d| == |actual|
  {
    seq(|actual|, k requires 0 <= k < |actual| => Deviation(actual[k], pred[k], spinor))
  }

  ghost function Sheets(actual: seq<real>, pred: seq<real>, spinor: bool): (b: seq<nat>)
    requires |actual| == |pred|
    ensures |b| == |actual|
  {
    seq(|actual|, k requires 0 <= k < |actual| => if SecondSheet(actual[k], pred[k], spinor) then 1 else 0)
  }

  ghost function SumAbs(d: seq<real>): real {
    if d == [] then 0.0 else SumAbs(d[..|d| - 1]) + Abs(d[|d| - 1])
  }

  /** The stored magnitude: the mean deviation, but at least tiny. */
  ghost function Magnitude(format: FloatFormat, d: seq<real>): real
    requires |d| > 0
  {
    var m := format.Round(SumAbs(d) / |d| as real);
    if m < format.tiny then format.tiny else m
  }

  ghost function Levels(d: seq<real>, bits: nat, mag: real, tiny: real): (l: seq<nat>)
    requires bits >= 1 && tiny > 0.0
    ensures |l| == |d| && AreDigits(l, bits)
  {
    seq(|d|, k requires 0 <= k < |d| => QuantizeLevel(d[k], bits, mag, tiny))
  }

  // ---------------------------------------------------------------- the record

  function SheetBytes(n: nat, spinor: bool): nat {
    if spinor then PackedSize(n, 1) else 0
  }

  /** Bytes of the residual part of a record. */
  function ResidualBytes(n: nat, bits: nat, spinor: bool): nat {
    if n == 0 then 0 else 4 + PackedSize(n, bits) + SheetBytes(n, spinor)
  }

  /** The residual part of a record holds magnitude, levels and sheets of the given deviations. */
  ghost predicate IsResidualRecord(tail: seq<byte>, format: FloatFormat, actual: seq<real>, pred: seq<real>, bits: nat, spinor: bool)
    requires bits >= 1 && format.Valid() && |actual| == |pred|
  {
    && |tail| == ResidualBytes(|actual|, bits, spinor)
    && (|actual| > 0 ==>
          var d := Deviations(actual, pred, spinor);
          var mag := Magnitude(format, d);
          && format.value(tail[..4]) == mag
          && Val(tail[4..4 + PackedSize(|d|, bits)], 8) == Val(Levels(d, bits, mag, format.tiny), bits)
          && (spinor ==> Val(tail[4 + PackedSize(|d|, bits)..], 8) == Val(Sheets(actual, pred, spinor), 1)))
  }

  /** The residual coefficient i that a record's tail and a prediction give. */
  ghost function Residual(tail: seq<byte>, format: FloatFormat, n: nat, i: nat, pred: real, bits: nat, spinor: bool): real
    requires bits >= 1 && i < n && |tail| == ResidualBytes(n, bits, spinor)
  {
    var level := CodeAt(tail[4..4 + PackedSize(n, bits)], bits, i);
    var dev := DequantizeLevel(level, bits, format.value(tail[..4]));
    var flip := spinor && CodeAt(tail[4 + PackedSize(n, bits)..], 1, i) == 1;
    (if flip then -pred else pred) + dev
  }

  /** Decoding residual i with prediction pred': the coefficient is off by at most the prediction's error
      plus the quantiser's. */
  lemma ResidualRoundTrip(tail: seq<byte>, format: FloatFormat, actual: seq<real>, pred: seq<real>, bits: nat, spinor: bool,
                          i: nat, pred': real, slack: real)
    requires bits >= 1 && format.Valid() && |actual| == |pred| && i < |actual|
    requires IsResidualRecord(tail, format, actual, pred, bits, spinor)
    requires Abs(pred' - pred[i]) <= slack
    ensures var mag := Magnitude(format, Deviations(actual, pred, spinor));
            var dev := Deviation(actual[i], pred[i], spinor);
            Abs(Residual(tail, format, |actual|, i, pred', bits, spinor) - actual[i])
            <= slack + Abs(DequantizeLevel(QuantizeLevel(dev, bits, mag, format.tiny), bits, mag) - dev)
  {
    hide Magnitude, Val, CodeAt, QuantizeLevel, DequantizeLevel, Abs, SecondSheet, PackedSize;
    var n := |actual|;
    var d := Deviations(actual, pred, spinor);
    var mag := Magnitude(format, d);
    var levels := Levels(d, bits, mag, format.tiny);
    UnpackRecovers(tail[4..4 + PackedSize(n, bits)], levels, bits, i);
    if spinor {
      var sheets := Sheets(actual, pred, spinor);
      SheetsFit(actual, pred, spinor);
      UnpackRecovers(tail[4 + PackedSize(n, bits)..], sheets, 1, i);
    } else {
      NoSheet(actual[i], pred[i]);
    }
    var dev' := DequantizeLevel(levels[i], bits, mag);
    ResidualError(actual[i], pred[i], pred', dev', spinor, slack, Abs(dev' - d[i]));
  }

  /** After the magnitude and the levels, bit i says whether the negative of the prediction is the nearer one. */
  lemma SheetInRecord(tail: seq<byte>, format: FloatFormat, actual: seq<real>, pred: seq<real>, bits: nat, i: nat)
    requires bits >= 1 && format.Valid() && |actual| == |pred| && i < |actual|
    requires IsResidualRecord(tail, format, actual, pred, bits, true)
    ensures |tail| == 4 + PackedSize(|actual|, bits) + PackedSize(|actual|, 1)
    ensures CodeAt(tail[4 + PackedSize(|actual|, bits)..], 1, i)
            == if Abs(actual[i] + pred[i]) < Abs(actual[i] - pred[i]) then 1 else 0
  {
    hide Magnitude, Val, CodeAt, PackedSize, Levels;
    var sheets := Sheets(actual, pred, true);
    SheetsFit(actual, pred, true);
    UnpackRecovers(tail[4 + PackedSize(|actual|, bits)..], sheets, 1, i);
  }

  lemma NoSheet(actual: real, pred: real)
    ensures !SecondSheet(actual, pred, false)
  {
  }

  lemma SheetsFit(actual: seq<real>, pred: seq<real>, spinor: bool)
    requires |actual| == |pred|
    ensures AreDigits(Sheets(actual, pred, spinor), 1)
  {
    assert Pow2(1) == 2;
  }

  /** A record's own magnitude is above tiny or equal to it. */
  lemma MagnitudeAtLeastTiny(format: FloatFormat, d: seq<real>)
    requires format.Valid() && |d| > 0
    ensures Magnitude(format, d) >= format.tiny
    ensures format.value(format.bytes(Magnitude(format, d))) == Magnitude(format, d)
  {
  }

  // ---------------------------------------------------------------- errors of predictions

  /** The errors of the skeleton values a row uses. */
  ghost function RowSlack(terms: seq<Term>, v: int -> real, w: int -> real): real {
    if terms == [] then 0.0
    else
      var last := terms[|terms| - 1];
      RowSlack(terms[..|terms| - 1], v, w) + Abs(w(last.slot) - v(last.slot))
  }

  lemma {:induction false} RowError(terms: seq<Term>, v: int -> real, w: int -> real)
    requires UnitSigns(terms)
    ensures Abs(RowSum(terms, w) - RowSum(terms, v)) <= RowSlack(terms, v, w)
  {
    if terms != [] {
      hide Abs, Times;
      var rest, last := terms[..|terms| - 1], terms[|terms| - 1];
      RowError(rest, v, w);
      var a, b := Times(last.sign as real, w(last.slot)), Times(last.sign as real, v(last.slot));
      SignedDifference(last.sign, w(last.slot), v(last.slot), a, b);
      assert RowSum(terms, w) == RowSum(rest, w) + a;
      assert RowSum(terms, v) == RowSum(rest, v) + b;
      assert RowSlack(terms, v, w) == RowSlack(rest, v, w) + Abs(w(last.slot) - v(last.slot));
      Triangle(RowSum(rest, w) - RowSum(rest, v), a - b, RowSum(terms, w) - RowSum(terms, v));
    }
  }

  lemma Triangle(a: real, b: real, sum: real)
    requires sum == a + b
    ensures Abs(sum) <= Abs(a) + Abs(b)
  {
  }

  lemma SignedDifference(sign: int, a: real, b: real, sa: real, sb: real)
    requires -1 <= sign <= 1 && sa == Times(sign as real, a) && sb == Times(sign as real, b)
    ensures Abs(sa - sb) <= Abs(a - b)
  {
    var c := sign as real;
    AbsProduct(c, a - b, 1.0, Abs(a - b));
    assert sa - sb == c * (a - b);
  }

  ghost predicate UnitSigns(terms: seq<Term>) {
    forall t :: 0 <= t < |terms| ==> -1 <= terms[t].sign <= 1
  }

  lemma {:induction false} SignsOfTerms(n: nat, skel: seq<int>, upto: nat)
    ensures UnitSigns(Terms(n, skel, upto))
  {
    hide Mu;
    if upto > 0 {
      SignsOfTerms(n, skel, upto - 1);
      MuRange(upto);
    }
  }

  lemma MuRange(d: nat)
    requires d > 0
    ensures -1 <= Mu(d) <= 1
  {
    hide HasSquareDivisor, PrimeDivisors;
  }

  lemma PredictionError(skel: seq<int>, i: nat, v: seq<real>, w: seq<real>)
    ensures Abs(Predicted(skel, i, w) - Predicted(skel, i, v)) <= RowSlack(Row(skel, i), AsVector(v), AsVector(w))
  {
    SignsOfTerms(i + 1, skel, i + 1);
    RowError(Row(skel, i), AsVector(v), AsVector(w));
  }

  // ---------------------------------------------------------------- the encoder in place

  /** pred[k] is row k's prediction from the skeleton values v. */
  method PredictAll(mask: KnightMask, v: array<real>, pred: array<real>)
    requires mask.ValidRows() && pred.Length == mask.residualIdx.Length && v != pred
    requires mask.skeletonIdx.Length <= v.Length
    modifies pred
    ensures ResidualIndices(mask) && pred[..] == Predictions(mask.skeletonIdx[..], mask.residualIdx[..], v[..mask.skeletonIdx.Length])
  {
    hide Row, Rows, IsResidual, Increasing, TermsAre, OffsetsAre;
    ghost var skel, res, values := mask.skeletonIdx[..], mask.residualIdx[..], v[..mask.skeletonIdx.Length];
    ResidualsInRange(mask);
    for k := 0 to pred.Length
      invariant forall t :: 0 <= t < k ==> 0 <= res[t] && pred[t] == Predicted(skel, res[t], values)
      invariant v[..mask.skeletonIdx.Length] == values
    {
      pred[k] := PredictOne(mask, v, k);
    }
  }

  ghost predicate ResidualIndices(mask: KnightMask)
    reads mask.residualIdx
  {
    forall i :: i in mask.residualIdx[..] ==> 0 <= i < mask.padDim
  }

  lemma ResidualsInRange(mask: KnightMask)
    requires mask.ValidRows()
    ensures ResidualIndices(mask)
    ensures forall k :: 0 <= k < mask.residualIdx.Length ==> 0 <= mask.residualIdx[k] < mask.padDim
  {
    hide Rows, TermsAre, OffsetsAre;
    forall k | 0 <= k < mask.residualIdx.Length
      ensures 0 <= mask.residualIdx[k] < mask.padDim
    {
      assert mask.residualIdx[..][k] in mask.residualIdx[..];
    }
  }

  method PredictOne(mask: KnightMask, v: array<real>, k: nat) returns (pred: real)
    requires mask.ValidRows() && k < mask.residualIdx.Length && mask.skeletonIdx.Length <= v.Length
    ensures mask.residualIdx[k] >= 0
    ensures pred == Predicted(mask.skeletonIdx[..], mask.residualIdx[k], v[..mask.skeletonIdx.Length])
  {
    RowLayout(mask, k);
    hide Row, Rows, KnightMask.ValidRows, RowSum, Times, AsVector, TermAt;
    ghost var values := v[..mask.skeletonIdx.Length];
    ghost var row := Row(mask.skeletonIdx[..], mask.residualIdx[k]);
    var start, end := mask.csrOffsets[k], mask.csrOffsets[k + 1];
    pred := 0.0;
    EmptyRowSum(AsVector(values));
    for j := start to end
      invariant pred == RowSum(row[..j - start], AsVector(values))
    {
      NextTerm(mask, row, start, j, values);
      pred := pred + Times(mask.csrMuSign[j] as real, v[mask.csrSkelSlot[j]]);
    }
    assert row[..|row|] == row;
  }

  /** One more term of a row. */
  lemma NextTerm(mask: KnightMask, row: seq<Term>, start: int, j: int, values: seq<real>)
    requires TermAt(mask, row, start, j) && mask.skeletonIdx.Length <= |values|
    ensures 0 <= j < mask.csrSkelSlot.Length && j < mask.csrMuSign.Length && 0 <= mask.csrSkelSlot[j] < mask.skeletonIdx.Length
    ensures 0 <= j - start < |row|
    ensures RowSum(row[..j - start + 1], AsVector(values))
            == RowSum(row[..j - start], AsVector(values)) + Times(mask.csrMuSign[j] as real, values[mask.csrSkelSlot[j]])
  {
    hide RowSum, Times;
    assert row[..j - start + 1] == row[..j - start] + [row[j - start]];
    RowSumAppend(row[..j - start], row[j - start], AsVector(values));
  }

  lemma EmptyRowSum(v: int -> real)
    ensures RowSum([], v) == 0.0
  {
  }

  /** Entry j of the term arrays is that of a row starting at `start`. */
  ghost predicate TermAt(mask: KnightMask, row: seq<Term>, start: int, j: int)
    reads mask.csrSkelSlot, mask.csrMuSign
  {
    && 0 <= j - start < |row| && 0 <= j < mask.csrSkelSlot.Length && j < mask.csrMuSign.Length
    && row[j - start] == Term(mask.csrSkelSlot[j], mask.csrMuSign[j])
    && 0 <= mask.csrSkelSlot[j] < mask.skeletonIdx.Length
  }

  /** Row k occupies its span of the term arrays. */
  lemma RowLayout(mask: KnightMask, k: nat)
    requires mask.ValidRows() && k < mask.residualIdx.Length
    ensures mask.csrOffsets.Length == mask.residualIdx.Length + 1 && mask.residualIdx[k] >= 0
    ensures 0 <= mask.csrOffsets[k] <= mask.csrOffsets[k + 1] <= mask.csrSkelSlot.Length == mask.csrMuSign.Length
    ensures |Row(mask.skeletonIdx[..], mask.residualIdx[k])| == mask.csrOffsets[k + 1] - mask.csrOffsets[k]
    ensures forall j :: mask.csrOffsets[k] <= j < mask.csrOffsets[k + 1] ==>
              TermAt(mask, Row(mask.skeletonIdx[..], mask.residualIdx[k]), mask.csrOffsets[k], j)
  {
    hide Row, Rows, IsResidual, Increasing;
    ghost var skel, res := mask.skeletonIdx[..], mask.residualIdx[..];
    ResidualsInRange(mask);
    RowAt(res, skel, k);
    var row, all := Row(skel, res[k]), Rows(res, skel, |res|);
    RowSlots(skel, res[k]);
    var start, end := mask.csrOffsets[..][k], mask.csrOffsets[..][k + 1];
    assert start == RowsLength(res, skel, k) && end == RowsLength(res, skel, k + 1);
    forall j | start <= j < end
      ensures TermAt(mask, row, start, j)
    {
      assert row[j - start] == all[j];
      assert all[j] == Term(mask.csrSkelSlot[..][j], mask.csrMuSign[..][j]);
    }
  }

  /** The slots of a row are skeleton slots. */
  lemma RowSlots(skel: seq<int>, i: nat)
    ensures forall t :: 0 <= t < |Row(skel, i)| ==> Row(skel, i)[t].slot < |skel|
  {
    SlotsOfTerms(i + 1, skel, i + 1);
  }

  ghost predicate SlotsBelow(terms: seq<Term>, n: nat) {
    forall t :: 0 <= t < |terms| ==> terms[t].slot < n
  }

  lemma {:induction false} SlotsOfTerms(n: nat, skel: seq<int>, upto: nat)
    ensures SlotsBelow(Terms(n, skel, upto), |skel|)
  {
    hide Mu;
    if upto > 0 {
      SlotsOfTerms(n, skel, upto - 1);
    }
  }

  /** The actual value of residual k is x[res[k]]; deviations and sheet bits, as the source lays them out. */
  method Deviate(mask: KnightMask, x: array<real>, pred: array<real>, spinor: bool) returns (dev: array<real>, sheet: array<byte>)
    requires mask.ValidRows() && x.Length == mask.padDim && pred.Length == mask.residualIdx.Length
    ensures fresh(dev) && fresh(sheet) && sheet.Length == SheetBytes(pred.Length, spinor)
    ensures forall i :: i in mask.residualIdx[..] ==> 0 <= i < x.Length
    ensures dev[..] == Deviations(Picked(x[..], mask.residualIdx[..]), pred[..], spinor)
    ensures spinor ==> Val(sheet[..], 8) == Val(Sheets(Picked(x[..], mask.residualIdx[..]), pred[..], spinor), 1)
  {
    hide KnightMask.ValidRows, Val, PackedSize, WithCode, Low, Shr, Shl, BitOr, ByteOf, ShiftOf, AreDigits;
    ResidualsInRange(mask);
    ghost var actual := Picked(x[..], mask.residualIdx[..]);
    ghost var bits := Sheets(actual, pred[..], spinor);
    SheetsFit(actual, pred[..], spinor);
    var n := pred.Length;
    dev := new real[n];
    sheet := new byte[SheetBytes(n, spinor)](_ => 0);
    ZeroStart(sheet[..], bits, 1);
    for i := 0 to n
      invariant forall k :: 0 <= k < i ==> dev[k] == Deviation(actual[k], pred[k], spinor)
      invariant spinor ==> Val(sheet[..], 8) == Val(bits[..i], 1)
    {
      assert actual[i] == x[mask.residualIdx[i]];
      var value := x[mask.residualIdx[i]];
      var plus, minus := value - pred[i], value + pred[i];
      if spinor {
        SheetBit(sheet[..], bits, i);
      } else {
        NoSheet(value, pred[i]);
      }
      if spinor && Abs(minus) < Abs(plus) {
        dev[i] := minus;
        ghost var before := sheet[..];
        var at := ByteOf(1, i);
        sheet[at] := Low(BitOr(sheet[at], Shl(1, ShiftOf(1, i))), 8);
        assert sheet[..] == before[at := Low(BitOr(before[at], Shl(1, ShiftOf(1, i))), 8)];
      } else {
        dev[i] := plus;
      }
    }
    assert bits[..n] == bits;
  }

  /** Or-ing bit i into its byte when it is set, and leaving the bytes when it is not, adds it to the value. */
  lemma SheetBit(bytes: seq<byte>, bits: seq<nat>, i: nat)
    requires i < |bits| && AreDigits(bits, 1) && |bytes| == PackedSize(|bits|, 1) && Val(bytes, 8) == Val(bits[..i], 1)
    ensures ByteOf(1, i) < |bytes|
    ensures bits[i] == 0 || bits[i] == 1
    ensures bits[i] == 0 ==> Val(bytes, 8) == Val(bits[..i + 1], 1)
    ensures bits[i] == 1 ==>
              Val(bytes[ByteOf(1, i) := Low(BitOr(bytes[ByteOf(1, i)], Shl(1, ShiftOf(1, i))), 8)], 8) == Val(bits[..i + 1], 1)
  {
    hide Val, PackedSize, Low, Shr, Shl, BitOr, ByteOf, ShiftOf, Mul, Weight;
    BytesAreDigits(bytes);
    BitRange();
    RandomStep(bytes, bits, 1, i);
    if bits[i] == 0 {
      assert bits[..i + 1] == bits[..i] + [0];
      ValAppend(bits[..i], 0, 1);
      MulOne(Weight(1, i));
    } else {
      assert WithCode(bytes, 1, 1, i) == bytes[ByteOf(1, i) := Low(BitOr(bytes[ByteOf(1, i)], Shl(1, ShiftOf(1, i))), 8)];
    }
  }

  lemma BitRange()
    ensures Pow2(1) == 2
  {
  }

  method MagnitudeOf(format: FloatFormat, dev: array<real>) returns (mag: real)
    requires dev.Length > 0
    ensures mag == Magnitude(format, dev[..])
  {
    mag := 0.0;
    for i := 0 to dev.Length
      invariant mag == SumAbs(dev[..i])
    {
      assert dev[..i + 1][..i] == dev[..i];
      mag := mag + Abs(dev[i]);
    }
    assert dev[..dev.Length] == dev[..];
    mag := format.Round(mag / dev.Length as real);
    if mag < format.tiny {
      mag := format.tiny;
    }
  }

  method LevelsOf(dev: array<real>, bits: nat, mag: real, tiny: real) returns (levels: seq<nat>)
    requires bits >= 1 && tiny > 0.0
    ensures levels == Levels(dev[..], bits, mag, tiny)
  {
    hide QuantizeLevel;
    levels := [];
    for i := 0 to dev.Length
      invariant |levels| == i && forall k :: 0 <= k < i ==> levels[k] == QuantizeLevel(dev[k], bits, mag, tiny)
    {
      levels := levels + [QuantizeLevel(dev[i], bits, mag, tiny)];
    }
  }

  /** Copy bytes into the output. */
  method CopyBytes(src: seq<byte>, out: array<byte>, at: nat)
    requires at + |src| <= out.Length
    modifies out
    ensures out[at..at + |src|] == src
    ensures forall k :: 0 <= k < out.Length && !(at <= k < at + |src|) ==> out[k] == old(out[k])
  {
    forall k | at <= k < at + |src| {
      out[k] := src[k - at];
    }
  }

  /** The residual part: predictions, deviations, magnitude, levels, sheets. */
  method StoreResiduals(mask: KnightMask, format: FloatFormat, x: array<real>, pred: array<real>, bits: nat, spinor: bool,
                        out: array<byte>, at: nat) returns (next: nat)
    requires mask.ValidRows() && format.Valid() && 1 <= bits <= 8
    requires x.Length == mask.padDim && pred.Length == mask.residualIdx.Length
    requires at + ResidualBytes(pred.Length, bits, spinor) <= out.Length
    modifies out
    ensures next == at + ResidualBytes(pred.Length, bits, spinor)
    ensures forall i :: i in mask.residualIdx[..] ==> 0 <= i < x.Length
    ensures IsResidualRecord(out[at..next], format, Picked(x[..], mask.residualIdx[..]), pred[..], bits, spinor)
    ensures forall k :: 0 <= k < out.Length && !(at <= k < next) ==> out[k] == old(out[k])
  {
    hide KnightMask.ValidRows, Val, PackedSize, Magnitude, Levels, Sheets, Deviations;
    ResidualsInRange(mask);
    next := at;
    if pred.Length > 0 {
      var n := pred.Length;
      ghost var actual, p := Picked(x[..], mask.residualIdx[..]), pred[..];
      var dev, sheet := Deviate(mask, x, pred, spinor);
      var mag := MagnitudeOf(format, dev);
      MagnitudeAtLeastTiny(format, dev[..]);
      var levels := LevelsOf(dev, bits, mag, format.tiny);
      next := WriteTail(format, mag, levels, bits, sheet[..], out, at);
      ghost var tail := out[at..next];
      TailParts(tail, out[..], at, next, PackedSize(n, bits));
    }
  }

  lemma TailParts(tail: seq<byte>, out: seq<byte>, at: nat, next: nat, packed: nat)
    requires at + 4 + packed <= next <= |out| && tail == out[at..next]
    ensures tail[..4] == out[at..at + 4]
    ensures tail[4..4 + packed] == out[at + 4..at + 4 + packed]
    ensures tail[4 + packed..] == out[at + 4 + packed..next]
  {
    SubSlice(out, at, next, 4 + packed, next - at);
    SubSlice(out, at, next, 4, 4 + packed);
    assert tail[4 + packed..] == tail[4 + packed..next - at];
  }

  method WriteTail(format: FloatFormat, mag: real, levels: seq<nat>, bits: nat, sheet: seq<byte>, out: array<byte>, at: nat)
      returns (next: nat)
    requires format.Valid() && 1 <= bits <= 8 && AreDigits(levels, bits)
    requires at + 4 + PackedSize(|levels|, bits) + |sheet| <= out.Length
    modifies out
    ensures next == at + 4 + PackedSize(|levels|, bits) + |sheet|
    ensures out[at..at + 4] == format.bytes(mag)
    ensures Val(out[at + 4..at + 4 + PackedSize(|levels|, bits)], 8) == Val(levels, bits)
    ensures out[at + 4 + PackedSize(|levels|, bits)..next] == sheet
    ensures forall k :: 0 <= k < out.Length && !(at <= k < next) ==> out[k] == old(out[k])
  {
    hide Val, PackedSize;
    var packed := PackedSize(|levels|, bits);
    CopyBytes(format.bytes(mag), out, at);
    PackRandom(levels, bits, out, at + 4);
    ghost var middle := out[at + 4..at + 4 + packed];
    CopyBytes(sheet, out, at + 4 + packed);
    assert out[at + 4..at + 4 + packed] == middle;
    next := at + 4 + packed + |sheet|;
  }

  // ---------------------------------------------------------------- whole records

  ghost function Gathered(order: seq<int>, v: seq<real>): (z: seq<real>)
    requires IsPermutation(order) && |order| == |v|
    ensures |z| == |v|
  {
    seq(|v|, i requires 0 <= i < |v| => v[order[i]])
  }

  ghost predicate InRange(idx: seq<int>, n: nat) {
    forall i :: i in idx ==> 0 <= i < n
  }

  /** The record of coefficients x. */
  ghost predicate IsCompressed(rec: seq<byte>, x: seq<real>, c: BandConfig, order: seq<int>, skel: seq<int>, res: seq<int>,
                               format: FloatFormat, bits: nat, spinor: bool)
    requires c.Valid() && format.Valid() && bits >= 1 && IsPermutation(order) && |order| == |skel|
    requires InRange(skel, |x|) && InRange(res, |x|)
  {
    var v := Picked(x, skel);
    && |rec| == c.TotalBytes() + ResidualBytes(|res|, bits, spinor)
    && IsEncoding(c, rec[..c.TotalBytes()], Gathered(order, v))
    && IsResidualRecord(rec[c.TotalBytes()..], format, Picked(x, res), Predictions(skel, res, v), bits, spinor)
  }

  /** The skeleton values a record decodes to. */
  ghost function SkeletonOf(rec: seq<byte>, c: BandConfig, order: seq<int>): (w: seq<real>)
    requires c.Valid() && |rec| >= c.TotalBytes() && IsPermutation(order) && |order| == c.headDim
    ensures |w| == c.headDim
  {
    Scattered(order, Decode(c, rec[..c.TotalBytes()], c.Bands()))
  }

  /** The coefficients y that a record is reconstructed to. */
  ghost predicate IsReconstructed(rec: seq<byte>, y: seq<real>, c: BandConfig, order: seq<int>, skel: seq<int>, res: seq<int>,
                                  format: FloatFormat, bits: nat, spinor: bool)
    requires c.Valid() && bits >= 1 && IsPermutation(order) && |order| == |skel| == c.headDim
    requires InRange(skel, |y|) && InRange(res, |y|)
    requires |rec| == c.TotalBytes() + ResidualBytes(|res|, bits, spinor)
  {
    var w, tail := SkeletonOf(rec, c, order), rec[c.TotalBytes()..];
    && Picked(y, skel) == w
    && Picked(y, res) == ResidualValues(tail, format, Predictions(skel, res, w), bits, spinor)
    && forall j :: 0 <= j < |y| && j !in skel && j !in res ==> y[j] == 0.0
  }

  ghost function ResidualValues(tail: seq<byte>, format: FloatFormat, pred: seq<real>, bits: nat, spinor: bool): (r: seq<real>)
    requires bits >= 1 && |tail| == ResidualBytes(|pred|, bits, spinor)
    ensures |r| == |pred|
  {
    seq(|pred|, i requires 0 <= i < |pred| => Residual(tail, format, |pred|, i, pred[i], bits, spinor))
  }

  /** Residual coefficient i of a reconstructed record: off by at most the errors of the skeleton values
      its row uses plus what the quantiser can cost: half a step or the excess over saturation where both
      sides saturate alike, and the stretched form of that at the smallest magnitude. */
  lemma ResidualAccuracy(rec: seq<byte>, x: seq<real>, y: seq<real>, c: BandConfig, order: seq<int>, skel: seq<int>, res: seq<int>,
                         format: FloatFormat, bits: nat, spinor: bool, i: nat)
    requires c.Valid() && format.Valid() && bits >= 1 && IsPermutation(order) && |order| == |skel| == c.headDim
    requires |x| == |y| && InRange(skel, |x|) && InRange(res, |x|) && i < |res|
    requires IsCompressed(rec, x, c, order, skel, res, format, bits, spinor)
    requires IsReconstructed(rec, y, c, order, skel, res, format, bits, spinor)
    ensures 0 <= res[i] < |x|
    ensures var v, w := Picked(x, skel), SkeletonOf(rec, c, order);
            var pred := Predictions(skel, res, v);
            var mag := Magnitude(format, Deviations(Picked(x, res), pred, spinor));
            && mag >= format.tiny
            && Abs(y[res[i]] - x[res[i]])
               <= RowSlack(Row(skel, res[i]), AsVector(v), AsVector(w))
                  + ErrorLimit(Deviation(x[res[i]], pred[i], spinor), bits, mag, format.tiny)
  {
    hide IsEncoding, IsResidualRecord, Residual, Magnitude, RowSlack, ErrorLimit, Abs, Deviation, QuantizeLevel, DequantizeLevel, Row, IsPermutation, Decode,
      BandConfig.RecordOffset, PackedSize;
    assert res[i] in res;
    var v, w := Picked(x, skel), SkeletonOf(rec, c, order);
    var actual, pred, tail := Picked(x, res), Predictions(skel, res, v), rec[c.TotalBytes()..];
    var pred' := Predictions(skel, res, w);
    var slack := RowSlack(Row(skel, res[i]), AsVector(v), AsVector(w));
    PredictionError(skel, res[i], v, w);
    ResidualRoundTrip(tail, format, actual, pred, bits, spinor, i, pred'[i], slack);
    var d := Deviations(actual, pred, spinor);
    MagnitudeAtLeastTiny(format, d);
    var mag := Magnitude(format, d);
    assert y[res[i]] == Picked(y, res)[i] == Residual(tail, format, |actual|, i, pred'[i], bits, spinor);
    QuantizeError(Deviation(x[res[i]], pred[i], spinor), bits, mag, format.tiny);
  }

  // ---------------------------------------------------------------- the stored magnitude is the mean

  /** How far a is from its prediction, or with the spinor from the nearer of the prediction and its negative. */
  ghost function Distance(a: real, p: real, spinor: bool): real {
    if spinor && Abs(a + p) < Abs(a - p) then Abs(a + p) else Abs(a - p)
  }

  /** The distances of the residual coefficients of x from their predictions. */
  ghost function Distances(x: seq<real>, skel: seq<int>, res: seq<int>, spinor: bool): int -> real
    requires InRange(skel, |x|) && InRange(res, |x|)
  {
    var actual, pred := Picked(x, res), Predictions(skel, res, Picked(x, skel));
    (k: int) => if 0 <= k < |res| then Distance(actual[k], pred[k], spinor) else 0.0
  }

  lemma {:induction false} SumAbsIsSum(d: seq<real>, f: int -> real)
    requires forall k :: 0 <= k < |d| ==> f(k) == Abs(d[k])
    ensures SumAbs(d) == Sum(0, |d|, f)
  {
    if d != [] {
      SumAbsIsSum(d[..|d| - 1], f);
    }
  }

  lemma {:induction false} SumAbove(n: nat, f: int -> real, mean: real)
    requires forall k :: 0 <= k < n ==> f(k) > mean
    ensures Sum(0, n, f) >= n as real * mean && (n > 0 ==> Sum(0, n, f) > n as real * mean)
  {
    if n > 0 {
      SumAbove(n - 1, f, mean);
      assert n as real * mean == (n - 1) as real * mean + mean;
    }
  }

  lemma {:induction false} SumBelow(n: nat, f: int -> real, mean: real)
    requires forall k :: 0 <= k < n ==> f(k) < mean
    ensures Sum(0, n, f) <= n as real * mean && (n > 0 ==> Sum(0, n, f) < n as real * mean)
  {
    if n > 0 {
      SumBelow(n - 1, f, mean);
      assert n as real * mean == (n - 1) as real * mean + mean;
    }
  }

  /** The four bytes after the skeleton hold the mean distance of the residual coefficients from their
      predictions, for a format that keeps it; it lies between the least and the greatest of them. */
  lemma StoredMean(rec: seq<byte>, x: seq<real>, c: BandConfig, order: seq<int>, skel: seq<int>, res: seq<int>,
                   format: FloatFormat, bits: nat, spinor: bool, mean: real)
    requires c.Valid() && format.Valid() && bits >= 1 && IsPermutation(order) && |order| == |skel| && |res| > 0
    requires InRange(skel, |x|) && InRange(res, |x|)
    requires IsCompressed(rec, x, c, order, skel, res, format, bits, spinor)
    requires |res| as real * mean == Sum(0, |res|, Distances(x, skel, res, spinor))
    requires format.Round(mean) == mean >= format.tiny
    ensures |rec| >= c.TotalBytes() + 4 && format.value(rec[c.TotalBytes()..][..4]) == mean
    ensures exists i :: 0 <= i < |res| && Distances(x, skel, res, spinor)(i) <= mean
    ensures exists i :: 0 <= i < |res| && mean <= Distances(x, skel, res, spinor)(i)
  {
    hide IsCompressed, Sum, Predictions, Picked, BandConfig.RecordOffset, Distances, Magnitude;
    RecordMagnitude(rec, x, c, order, skel, res, format, bits, spinor);
    MagnitudeIsMean(x, skel, res, format, spinor, mean);
    MeanIsBetween(|res|, Distances(x, skel, res, spinor), mean);
  }

  lemma RecordMagnitude(rec: seq<byte>, x: seq<real>, c: BandConfig, order: seq<int>, skel: seq<int>, res: seq<int>,
                        format: FloatFormat, bits: nat, spinor: bool)
    requires c.Valid() && format.Valid() && bits >= 1 && IsPermutation(order) && |order| == |skel| && |res| > 0
    requires InRange(skel, |x|) && InRange(res, |x|)
    requires IsCompressed(rec, x, c, order, skel, res, format, bits, spinor)
    ensures |rec| >= c.TotalBytes() + 4
    ensures format.value(rec[c.TotalBytes()..][..4])
            == Magnitude(format, Deviations(Picked(x, res), Predictions(skel, res, Picked(x, skel)), spinor))
  {
    hide IsEncoding, Predictions, Picked, BandConfig.RecordOffset, PackedSize, Magnitude, Val, Deviations;
  }

  lemma MeanIsBetween(n: nat, f: int -> real, mean: real)
    requires n > 0 && n as real * mean == Sum(0, n, f)
    ensures exists i :: 0 <= i < n && f(i) <= mean
    ensures exists i :: 0 <= i < n && mean <= f(i)
  {
    hide Sum;
    if forall i :: 0 <= i < n ==> f(i) > mean {
      SumAbove(n, f, mean);
    }
    if forall i :: 0 <= i < n ==> f(i) < mean {
      SumBelow(n, f, mean);
    }
  }

  lemma MagnitudeIsMean(x: seq<real>, skel: seq<int>, res: seq<int>, format: FloatFormat, spinor: bool, mean: real)
    requires InRange(skel, |x|) && InRange(res, |x|) && |res| > 0
    requires |res| as real * mean == Sum(0, |res|, Distances(x, skel, res, spinor))
    requires format.Round(mean) == mean >= format.tiny
    ensures Magnitude(format, Deviations(Picked(x, res), Predictions(skel, res, Picked(x, skel)), spinor)) == mean
  {
    hide Sum, Predictions, Picked, SumAbs;
    var actual, pred := Picked(x, res), Predictions(skel, res, Picked(x, skel));
    var d, f := Deviations(actual, pred, spinor), Distances(x, skel, res, spinor);
    forall k | 0 <= k < |d|
      ensures f(k) == Abs(d[k])
    {
      DistanceIsDeviation(actual[k], pred[k], spinor);
    }
    SumAbsIsSum(d, f);
    MeanOf(|d| as real, mean, SumAbs(d));
  }

  lemma MeanOf(n: real, mean: real, sum: real)
    requires n > 0.0 && n * mean == sum
    ensures sum / n == mean
  {
    QuotientOf(sum, n, mean);
  }

  lemma DistanceIsDeviation(a: real, p: real, spinor: bool)
    ensures Distance(a, p, spinor) == Abs(Deviation(a, p, spinor))
  {
  }

  /** Residual coefficient i of a reconstructed record in closed form: beside the errors of the skeleton values
      its row uses, the mean distance times the number of bits, one part in 2^bits - 1 of it, or what the
      coefficient's own distance exceeds it by. */
  lemma ResidualAccuracyByMean(rec: seq<byte>, x: seq<real>, y: seq<real>, c: BandConfig, order: seq<int>, skel: seq<int>,
                               res: seq<int>, format: FloatFormat, bits: nat, spinor: bool, i: nat, mean: real)
    requires c.Valid() && format.Valid() && bits >= 1 && IsPermutation(order) && |order| == |skel| == c.headDim
    requires |x| == |y| && InRange(skel, |x|) && InRange(res, |x|) && i < |res|
    requires IsCompressed(rec, x, c, order, skel, res, format, bits, spinor)
    requires IsReconstructed(rec, y, c, order, skel, res, format, bits, spinor)
    requires |res| as real * mean == Sum(0, |res|, Distances(x, skel, res, spinor))
    requires format.Round(mean) == mean && (mean > format.tiny || (mean >= format.tiny && bits == 1))
    ensures 0 <= res[i] < |x| && Pow2(bits) >= 2
    ensures Abs(y[res[i]] - x[res[i]])
            <= RowSlack(Row(skel, res[i]), AsVector(Picked(x, skel)), AsVector(SkeletonOf(rec, c, order)))
               + Max(mean * bits as real / (Pow2(bits) - 1) as real,
                     Distances(x, skel, res, spinor)(i) - mean * bits as real)
  {
    hide IsEncoding, IsCompressed, IsReconstructed, Sum, Magnitude, RowSlack, ErrorLimit, Abs, Deviation, Row, Decode,
      BandConfig.RecordOffset, PackedSize, Predictions;
    ResidualAccuracy(rec, x, y, c, order, skel, res, format, bits, spinor, i);
    MagnitudeIsMean(x, skel, res, format, spinor, mean);
    var pred := Predictions(skel, res, Picked(x, skel));
    assert Picked(x, res)[i] == x[res[i]];
    DistanceIsDeviation(x[res[i]], pred[i], spinor);
    SaturatedLimit(Deviation(x[res[i]], pred[i], spinor), bits, mean, format.tiny);
  }

  /** Skeleton coefficient s of a reconstructed record is within its band's bound. */
  lemma SkeletonAccuracy(rec: seq<byte>, x: seq<real>, y: seq<real>, c: BandConfig, order: seq<int>, skel: seq<int>, res: seq<int>,
                         format: FloatFormat, bits: nat, spinor: bool, b: nat, k: nat)
    requires c.Valid() && format.Valid() && bits >= 1 && IsPermutation(order) && |order| == |skel| == c.headDim
    requires |x| == |y| && InRange(skel, |x|) && InRange(res, |x|)
    requires IsCompressed(rec, x, c, order, skel, res, format, bits, spinor)
    requires IsReconstructed(rec, y, c, order, skel, res, format, bits, spinor)
    requires b < c.Bands() && c.Offset(b) <= k < c.Offset(b) + c.Size(b)
    ensures k < |skel| && 0 <= order[k] < |skel| && 0 <= skel[order[k]] < |x|
    ensures Abs(y[skel[order[k]]] - x[skel[order[k]]])
            <= ErrorBound(c, Gathered(order, Picked(x, skel)), c.Bands(), b, k)
  {
    hide IsEncoding, IsResidualRecord, ResidualValues, Abs, Decode, ErrorBound, BandConfig.RecordOffset, BandConfig.Size, BandConfig.Offset;
    SizeNonNegative(c, b);
    var z := Gathered(order, Picked(x, skel));
    var bytes := rec[..c.TotalBytes()];
    DecodeError(c, bytes, z, c.Bands(), b, k);
    var w := SkeletonOf(rec, c, order);
    assert skel[order[k]] in skel;
    assert w[order[k]] == Decode(c, bytes, c.Bands())[k];
    assert y[skel[order[k]]] == Picked(y, skel)[order[k]];
  }

  /** A squarefree coefficient outside the skeleton is lost: it is reconstructed as zero. There is one exactly
      when the skeleton asked for is smaller than the number of squarefree indices. */
  lemma OrphanIsLost(rec: seq<byte>, y: seq<real>, c: BandConfig, order: seq<int>, skel: seq<int>, res: seq<int>,
                     format: FloatFormat, bits: nat, spinor: bool, skK: nat, score: int -> real, i: int)
    requires c.Valid() && bits >= 1 && IsPermutation(order) && |order| == |skel| == c.headDim
    requires InRange(skel, |y|) && InRange(res, |y|)
    requires |rec| == c.TotalBytes() + ResidualBytes(|res|, bits, spinor)
    requires IsReconstructed(rec, y, c, order, skel, res, format, bits, spinor)
    requires IsSkeleton(skel, |y|, skK, score) && IsResidual(res, skel, |y|)
    ensures IsOrphan(i, skel, |y|) ==> y[i] == 0.0
    ensures (exists j :: IsOrphan(j, skel, |y|)) <==> skK < |SquarefreeBelow(|y|)|
  {
    hide Decode, ResidualValues, Predictions, Scattered, BandConfig.RecordOffset, PackedSize, Mu;
    OrphansExist(skel, res, |y|, skK, score);
  }

  // ---------------------------------------------------------------- the codec object

  class SqfreeCodec {
    const mask: KnightMask
    const bands: BandConfig
    const skelMobius: MobiusMask?
    const residualBits: nat
    const useSpinor: bool
    const format: FloatFormat
    const coeffScratch: array<real>
    const padScratch: array<real>
    const predScratch: array<real>
    const skelScratch: array<real>

    constructor (mask: KnightMask, bands: BandConfig, skelMobius: MobiusMask?, residualBits: nat, useSpinor: bool, format: FloatFormat)
      requires mask.ValidRows() && mask.skeletonIdx.Length <= mask.padDim
      requires bands.Valid() && bands.headDim == mask.skeletonIdx.Length && format.Valid() && 1 <= residualBits <= 8
      requires skelMobius != null ==> skelMobius.Valid() && skelMobius.n == bands.headDim
      ensures Ready()
      ensures this.mask == mask && this.bands == bands && this.skelMobius == skelMobius
      ensures this.residualBits == residualBits && this.useSpinor == useSpinor && this.format == format
      ensures fresh(coeffScratch) && fresh(padScratch) && fresh(predScratch) && fresh(skelScratch)
    {
      this.mask, this.bands, this.skelMobius := mask, bands, skelMobius;
      this.residualBits, this.useSpinor, this.format := residualBits, useSpinor, format;
      coeffScratch := new real[mask.padDim];
      padScratch := new real[mask.padDim];
      predScratch := new real[mask.residualIdx.Length];
      skelScratch := new real[mask.skeletonIdx.Length];
    }

    ghost predicate Ready()
      reads mask, mask.skeletonIdx, mask.residualIdx, mask.csrOffsets, mask.csrSkelSlot, mask.csrMuSign
      reads skelMobius, if skelMobius != null then {skelMobius.order, skelMobius.mu} else {}
    {
      && mask.ValidRows() && mask.skeletonIdx.Length <= mask.padDim
      && bands.Valid() && bands.headDim == mask.skeletonIdx.Length && format.Valid() && 1 <= residualBits <= 8
      && (skelMobius != null ==> skelMobius.Valid() && skelMobius.n == bands.headDim)
      && coeffScratch.Length == padScratch.Length == mask.padDim
      && predScratch.Length == mask.residualIdx.Length && skelScratch.Length == mask.skeletonIdx.Length
      && coeffScratch !in {padScratch, predScratch, skelScratch} && padScratch !in {predScratch, skelScratch} && predScratch != skelScratch
    }

    /** The order the skeleton is banded in. */
    ghost function Order(): seq<int>
      reads skelMobius, if skelMobius != null then {skelMobius.order} else {}
    {
      if skelMobius != null then skelMobius.order[..] else Natural(bands.headDim)
    }

    lemma OrderIsPermutation()
      requires Ready()
      ensures IsPermutation(Order()) && |Order()| == bands.headDim
      ensures InRange(mask.skeletonIdx[..], mask.padDim) && InRange(mask.residualIdx[..], mask.padDim)
    {
      NaturalIsPermutation(bands.headDim);
      ResidualsInRange(mask);
    }

    /** Bytes of a record; what is allocated for a position counts the magnitude even without residuals. */
    function RecordBytes(): nat
      requires bands.Valid()
    {
      bands.TotalBytes() + ResidualBytes(mask.residualIdx.Length, residualBits, useSpinor)
    }

    function AllocatedBytes(): nat
      requires bands.Valid()
    {
      bands.TotalBytes() + PackedSize(mask.residualIdx.Length, residualBits) + 4
      + if useSpinor then PackedSize(mask.residualIdx.Length, 1) else 0
    }

    /** A record fits its allocation; it fills it exactly when there are residuals. */
    lemma RecordFits()
      requires bands.Valid()
      ensures RecordBytes() <= AllocatedBytes()
      ensures RecordBytes() == AllocatedBytes() <==> mask.residualIdx.Length > 0
    {
      hide PackedSize;
    }

    /** Compress the coefficients in the coefficient scratch into `out` at `base`. */
    method Compress(out: array<byte>, base: nat) returns (written: nat)
      requires Ready() && base + RecordBytes() <= out.Length
      modifies padScratch, predScratch, skelScratch, out
      ensures Ready() && written == RecordBytes()
      ensures IsPermutation(Order()) && |Order()| == bands.headDim
      ensures InRange(mask.skeletonIdx[..], mask.padDim) && InRange(mask.residualIdx[..], mask.padDim)
      ensures IsCompressed(out[base..base + written], coeffScratch[..], bands, Order(), mask.skeletonIdx[..], mask.residualIdx[..],
                           format, residualBits, useSpinor)
      ensures forall k :: 0 <= k < out.Length && !(base <= k < base + written) ==> out[k] == old(out[k])
    {
      hide KnightMask.ValidRows, MobiusMask.Valid, IsPermutation, IsEncoding, IsResidualRecord, ResidualBytes, BandConfig.RecordOffset,
        Predictions, Gathered, FloatFormat.Valid, Picked;
      OrderIsPermutation();
      StoreSkeleton(out, base);
      ghost var head := out[base..base + bands.TotalBytes()];
      PredictAll(mask, padScratch, predScratch);
      var next := StoreResiduals(mask, format, coeffScratch, predScratch, residualBits, useSpinor, out, base + bands.TotalBytes());
      written := next - base;
      ghost var rec := out[base..next];
      RecordParts(rec, head, out[base + bands.TotalBytes()..next]);
    }

    /** The skeleton's part of a record; the values stay in the pad scratch. */
    method StoreSkeleton(out: array<byte>, base: nat)
      requires Ready() && base + bands.TotalBytes() <= out.Length
      modifies padScratch, skelScratch, out
      ensures IsPermutation(Order()) && |Order()| == bands.headDim && InRange(mask.skeletonIdx[..], mask.padDim)
      ensures padScratch[..mask.skeletonIdx.Length] == Picked(coeffScratch[..], mask.skeletonIdx[..])
      ensures IsEncoding(bands, out[base..base + bands.TotalBytes()], Gathered(Order(), Picked(coeffScratch[..], mask.skeletonIdx[..])))
      ensures forall k :: 0 <= k < out.Length && !(base <= k < base + bands.TotalBytes()) ==> out[k] == old(out[k])
    {
      hide KnightMask.ValidRows, MobiusMask.Valid, IsPermutation, IsEncoding, BandConfig.RecordOffset, Gathered, FloatFormat.Valid, Picked;
      OrderIsPermutation();
      ghost var v := Picked(coeffScratch[..], mask.skeletonIdx[..]);
      Extract();
      GatherSkeleton(v);
      BandQuantize(bands, skelScratch[..], out, base);
    }

    lemma RecordParts(rec: seq<byte>, head: seq<byte>, tail: seq<byte>)
      requires rec == head + tail
      ensures rec[..|head|] == head && rec[|head|..] == tail
    {
    }

    /** Skeleton values into the pad scratch. */
    method Extract()
      requires Ready()
      modifies padScratch
      ensures InRange(mask.skeletonIdx[..], coeffScratch.Length)
      ensures padScratch[..mask.skeletonIdx.Length] == Picked(coeffScratch[..], mask.skeletonIdx[..])
    {
      hide Rows, IsResidual, TermsAre, OffsetsAre, Increasing, MobiusMask.Valid;
      ghost var x, skel := coeffScratch[..], mask.skeletonIdx[..];
      for s := 0 to mask.skeletonIdx.Length
        invariant forall t :: 0 <= t < s ==> padScratch[t] == Picked(x, skel)[t]
      {
        assert skel[s] in skel;
        padScratch[s] := coeffScratch[mask.skeletonIdx[s]];
      }
    }

    /** The skeleton values in band order. */
    method GatherSkeleton(ghost v: seq<real>)
      requires Ready() && |v| == bands.headDim && padScratch[..bands.headDim] == v
      requires IsPermutation(Order()) && |Order()| == bands.headDim
      modifies skelScratch
      ensures skelScratch[..] == Gathered(Order(), v)
    {
      if skelMobius != null {
        for i := 0 to skelScratch.Length
          invariant forall t :: 0 <= t < i ==> skelScratch[t] == v[Order()[t]]
        {
          skelScratch[i] := padScratch[skelMobius.order[i]];
        }
      } else {
        forall i | 0 <= i < skelScratch.Length {
          skelScratch[i] := padScratch[i];
        }
      }
    }

    /** Reconstruct coefficients from a record; exactly the record is read. */
    method Reconstruct(rec: seq<byte>, coeffs: array<real>) returns (read: nat)
      requires Ready() && |rec| >= RecordBytes() && coeffs.Length == mask.padDim
      requires coeffs !in {padScratch, predScratch, skelScratch}
      modifies padScratch, predScratch, skelScratch, coeffs
      ensures Ready() && read == RecordBytes()
      ensures IsPermutation(Order()) && |Order()| == bands.headDim
      ensures InRange(mask.skeletonIdx[..], mask.padDim) && InRange(mask.residualIdx[..], mask.padDim)
      ensures IsReconstructed(rec[..read], coeffs[..], bands, Order(), mask.skeletonIdx[..], mask.residualIdx[..],
                              format, residualBits, useSpinor)
    {
      hide KnightMask.ValidRows, MobiusMask.Valid, IsPermutation, ResidualBytes, BandConfig.RecordOffset, Decode, ResidualValues,
        Predictions, FloatFormat.Valid, Scattered, Picked;
      OrderIsPermutation();
      var total := bands.TotalBytes();
      ghost var w := SkeletonOf(rec[..RecordBytes()], bands, Order());
      assert rec[..RecordBytes()][..total] == rec[..total];
      ReadSkeleton(rec[..total], w);
      PredictAll(mask, padScratch, predScratch);
      ghost var pred := predScratch[..];
      var tail := rec[total..RecordBytes()];
      assert tail == rec[..RecordBytes()][total..];
      read := RestoreResiduals(tail);
      read := total + read;
      Assemble(coeffs, w, ResidualValues(tail, format, pred, residualBits, useSpinor));
    }

    /** The skeleton's part of a record into the pad scratch. */
    method ReadSkeleton(head: seq<byte>, ghost w: seq<real>)
      requires Ready() && |head| == bands.TotalBytes() && IsPermutation(Order()) && |Order()| == bands.headDim
      requires w == Scattered(Order(), Decode(bands, head, bands.Bands()))
      modifies padScratch, skelScratch
      ensures padScratch[..bands.headDim] == w
    {
      hide KnightMask.ValidRows, MobiusMask.Valid, IsPermutation, BandConfig.RecordOffset, Decode, FloatFormat.Valid, Scattered;
      BandDequantizePartial(bands, head, bands.Bands(), skelScratch);
      ScatterSkeleton(w, skelScratch[..]);
    }

    /** Undo the band order. */
    method ScatterSkeleton(ghost w: seq<real>, ghost y: seq<real>)
      requires Ready() && skelScratch[..] == y && IsPermutation(Order()) && |Order()| == bands.headDim
      requires w == Scattered(Order(), y)
      modifies padScratch
      ensures padScratch[..bands.headDim] == w
    {
      hide KnightMask.ValidRows, BandConfig.Valid, FloatFormat.Valid;
      if skelMobius != null {
        ScatterByMask(skelMobius.order, skelScratch, padScratch);
      } else {
        forall i | 0 <= i < skelScratch.Length {
          padScratch[i] := skelScratch[i];
        }
        assert forall t :: 0 <= t < |y| ==> padScratch[Order()[t]] == y[t];
      }
      ScatteredUnique(Order(), y, padScratch[..bands.headDim]);
    }

    /** Replace each prediction by the residual coefficient it leads to. */
    method RestoreResiduals(tail: seq<byte>) returns (read: nat)
      requires Ready() && |tail| == ResidualBytes(predScratch.Length, residualBits, useSpinor)
      modifies predScratch
      ensures read == |tail|
      ensures predScratch[..] == ResidualValues(tail, format, old(predScratch[..]), residualBits, useSpinor)
    {
      hide KnightMask.ValidRows, MobiusMask.Valid, PackedSize, CodeAt, DequantizeLevel, FloatFormat.Valid, ReadCode, ByteOf;
      read := 0;
      var n := predScratch.Length;
      if n > 0 {
        ghost var pred := predScratch[..];
        var packed := PackedSize(n, residualBits);
        var mag := format.value(tail[..4]);
        read := 4;
        var levels := UnpackRandom(tail[read..read + packed], n, residualBits);
        read := read + packed;
        var sheet := tail[read..];
        for i := 0 to n
          invariant forall k :: 0 <= k < i ==> predScratch[k] == Residual(tail, format, n, k, pred[k], residualBits, useSpinor)
          invariant forall k :: i <= k < n ==> predScratch[k] == pred[k]
        {
          var p := predScratch[i];
          if useSpinor {
            ReadIsCode(sheet, 1, i, n);
            if ReadCode(sheet, 1, i) == 1 {
              p := -p;
            }
          }
          predScratch[i] := p + DequantizeLevel(levels[i], residualBits, mag);
        }
        if useSpinor {
          read := read + PackedSize(n, 1);
        }
      }
    }

    /** Skeleton and residual coefficients into place; the rest is zero. */
    method Assemble(coeffs: array<real>, ghost w: seq<real>, ghost r: seq<real>)
      requires Ready() && coeffs.Length == mask.padDim && coeffs !in {padScratch, predScratch}
      requires |w| == bands.headDim && padScratch[..bands.headDim] == w && predScratch[..] == r
      modifies coeffs
      ensures InRange(mask.skeletonIdx[..], coeffs.Length) && InRange(mask.residualIdx[..], coeffs.Length)
      ensures Picked(coeffs[..], mask.skeletonIdx[..]) == w && Picked(coeffs[..], mask.residualIdx[..]) == r
      ensures forall j :: 0 <= j < coeffs.Length && j !in mask.skeletonIdx[..] && j !in mask.residualIdx[..] ==> coeffs[j] == 0.0
    {
      hide Rows, TermsAre, OffsetsAre, MobiusMask.Valid, Mu, IsPermutation, Increasing;
      OrderIsPermutation();
      ghost var skel, res := mask.skeletonIdx[..], mask.residualIdx[..];
      forall j | 0 <= j < coeffs.Length {
        coeffs[j] := 0.0;
      }
      assert mask.skeletonIdx[..] == skel && mask.residualIdx[..] == res;
      PlaceAll(coeffs, mask.skeletonIdx, padScratch);
      ghost var placed := coeffs[..];
      assert mask.skeletonIdx[..] == skel && mask.residualIdx[..] == res;
      PlaceAll(coeffs, mask.residualIdx, predScratch);
      PickedKept(placed, coeffs[..], skel, res);
    }
  }

  method ScatterByMask(order: array<int>, from: array<real>, to: array<real>)
    requires order.Length == from.Length <= to.Length && from != to && IsPermutation(order[..])
    modifies to
    ensures forall t :: 0 <= t < order.Length ==> 0 <= order[t] < order.Length && to[order[t]] == from[t]
  {
    for i := 0 to order.Length
      invariant forall t :: 0 <= t < i ==> to[order[t]] == from[t]
    {
      to[order[i]] := from[i];
    }
  }

  /** Values to their indices. */
  method PlaceAll(coeffs: array<real>, idx: array<int>, values: array<real>)
    requires idx.Length <= values.Length && values != coeffs
    requires Increasing(idx[..]) && InRange(idx[..], coeffs.Length)
    modifies coeffs
    ensures Picked(coeffs[..], idx[..]) == values[..idx.Length]
    ensures forall j :: 0 <= j < coeffs.Length && j !in idx[..] ==> coeffs[j] == old(coeffs[j])
  {
    ghost var all := idx[..];
    for s := 0 to idx.Length
      invariant forall t :: 0 <= t < s ==> 0 <= all[t] < coeffs.Length && coeffs[all[t]] == values[t]
      invariant forall j :: 0 <= j < coeffs.Length && j !in all ==> coeffs[j] == old(coeffs[j])
    {
      assert all[s] in all;
      coeffs[idx[s]] := values[s];
    }
  }

  lemma PickedKept(before: seq<real>, after: seq<real>, idx: seq<int>, others: seq<int>)
    requires |before| == |after| && InRange(idx, |before|) && forall i :: i in others ==> i !in idx
    requires forall j :: 0 <= j < |after| && j !in others ==> after[j] == before[j]
    ensures Picked(after, idx) == Picked(before, idx)
  {
    forall t | 0 <= t < |idx|
      ensures Picked(after, idx)[t] == Picked(before, idx)[t]
    {
      assert idx[t] in idx;
    }
  }
}
