/** The banded codec on byte buffers (core/src/shannon_prime.c, `sp_band_quantize`, `sp_band_dequantize`,
    `sp_band_dequantize_partial`): what the encoder leaves in a buffer, what the decoders make of one,
    and how far decoding an encoding is from the vector it came from. */
module BandRecords {
  import opened BandCodec
  import opened BitPack
  import opened Digits
  import opened Half
  import opened RealArith

  // ---------------------------------------------------------------- encodings

  /** The largest magnitude of a band. */
  ghost function Peak(values: seq<real>): (amax: real)
    ensures amax >= 0.0
  {
    if values == [] then 0.0
    else
      var rest, a := Peak(values[..|values| - 1]), Abs(values[|values| - 1]);
      if a > rest then a else rest
  }

  lemma {:induction false} PeakBounds(values: seq<real>, i: nat)
    requires i < |values|
    ensures Abs(values[i]) <= Peak(values)
  {
    if i < |values| - 1 {
      PeakBounds(values[..|values| - 1], i);
    }
  }

  /** Bits a code occupies. */
  function Width(bits: nat, ternary: bool): nat {
    if ternary then 2 else bits
  }

  ghost function ScaleOf(values: seq<real>, bits: nat, ternary: bool): (h: nat)
    requires bits >= 1
    ensures h < 65536 && ScaleOk(Peak(values), bits, ternary, h)
  {
    ScaleNonNegative(Peak(values), bits, ternary);
    ToHalf(ExactScale(Peak(values), bits, ternary))
  }

  /** The record of one band: its scale, low byte first, then its packed codes. */
  ghost predicate IsRecord(bytes: seq<byte>, values: seq<real>, bits: nat, ternary: bool)
    requires bits >= 1
  {
    var h := ScaleOf(values, bits, ternary);
    && |bytes| == 2 + PackedSize(|values|, Width(bits, ternary))
    && bytes[0] == h % 256 && bytes[1] == h / 256
    && Val(bytes[2..], 8) == Val(Codes(values, CodeFor(h, bits, ternary)), Width(bits, ternary))
  }

  /** The coefficients of band b. */
  ghost function Band(c: BandConfig, x: seq<real>, b: nat): seq<real>
    requires b < c.Bands() && |x| == c.headDim
  {
    SizeNonNegative(c, b);
    x[c.Offset(b)..c.Offset(b) + c.Size(b)]
  }

  /** The bytes of band b's record. */
  function Record(c: BandConfig, bytes: seq<byte>, b: nat): (record: seq<byte>)
    requires c.Valid() && b < c.Bands() && |bytes| >= c.RecordOffset(b + 1)
    ensures |record| == c.RecordBytes(b)
  {
    bytes[c.RecordOffset(b)..c.RecordOffset(b + 1)]
  }

  /** Band b of x is encoded in bytes. */
  ghost predicate EncodesBand(c: BandConfig, bytes: seq<byte>, x: seq<real>, b: nat)
    requires c.Valid() && b < c.Bands() && |x| == c.headDim
  {
    && |bytes| >= c.RecordOffset(b + 1)
    && IsRecord(Record(c, bytes, b), Band(c, x, b), c.bandBits[b], c.ternary[b])
  }

  /** The first `upto` bands of x are encoded in bytes. */
  ghost predicate Encodes(c: BandConfig, bytes: seq<byte>, x: seq<real>, upto: nat)
    requires c.Valid() && upto <= c.Bands() && |x| == c.headDim
  {
    forall b :: 0 <= b < upto ==> EncodesBand(c, bytes, x, b)
  }

  /** Bytes are an encoding of the vector x. */
  ghost predicate IsEncoding(c: BandConfig, bytes: seq<byte>, x: seq<real>)
    requires c.Valid()
  {
    |x| == c.headDim && |bytes| == c.TotalBytes() && Encodes(c, bytes, x, c.Bands())
  }

  // ---------------------------------------------------------------- decoding

  function HalfAt(low: byte, high: byte): nat {
    low + 256 * high
  }

  /** The coefficients a record stands for. */
  ghost function DecodedBand(record: seq<byte>, n: nat, bits: nat, ternary: bool): (y: seq<real>)
    requires |record| >= 2 && bits >= 1
    ensures |y| == n
  {
    seq(n, i requires 0 <= i < n =>
      Dequant(CodeAt(record[2..], Width(bits, ternary), i), HalfAt(record[0], record[1]), bits, ternary))
  }

  function Zeros(n: nat): (z: seq<real>)
    ensures |z| == n
  {
    seq(n, _ => 0.0)
  }

  /** First coefficient of band b, or the end of the vector. */
  function BandStart(c: BandConfig, b: nat): nat
    requires 0 < c.Bands() && b <= c.Bands()
  {
    if b == c.Bands() then c.headDim else c.Offset(b)
  }

  /** Bytes that decoding the first m bands needs. */
  ghost predicate Covers(c: BandConfig, bytes: seq<byte>, m: nat)
    requires c.Valid()
  {
    m <= c.Bands() && |bytes| >= c.RecordOffset(m)
  }

  /** Decoding bands [0, upto) of a buffer of which only the first m records are read; every other
      band is zero. */
  ghost function Decoded(c: BandConfig, bytes: seq<byte>, m: nat, upto: nat): (y: seq<real>)
    requires c.Valid() && upto <= c.Bands() && Covers(c, bytes, m)
    ensures |y| == BandStart(c, upto)
  {
    if upto == 0 then SizeNonNegative(c, 0); []
    else
      SizeNonNegative(c, upto - 1);
      Decoded(c, bytes, m, upto - 1) + DecodedPart(c, bytes, m, upto - 1)
  }

  /** What band b is decoded to. */
  ghost function DecodedPart(c: BandConfig, bytes: seq<byte>, m: nat, b: nat): (y: seq<real>)
    requires c.Valid() && b < c.Bands() && Covers(c, bytes, m)
    ensures |y| == c.Size(b)
  {
    SizeNonNegative(c, b);
    if b < m then
      RecordsOrdered(c, b + 1, m);
      DecodedBand(Record(c, bytes, b), c.Size(b), c.bandBits[b], c.ternary[b])
    else
      Zeros(c.Size(b))
  }

  ghost function Decode(c: BandConfig, bytes: seq<byte>, m: nat): (y: seq<real>)
    requires c.Valid() && Covers(c, bytes, m)
    ensures |y| == c.headDim
  {
    Decoded(c, bytes, m, c.Bands())
  }

  // ---------------------------------------------------------------- the encoder in place

  method PeakOf(values: seq<real>) returns (amax: real)
    ensures amax == Peak(values)
  {
    amax := 0.0;
    for i := 0 to |values|
      invariant amax == Peak(values[..i])
    {
      assert values[..i + 1][..i] == values[..i];
      var a := Abs(values[i]);
      if a > amax {
        amax := a;
      }
    }
    assert values[..|values|] == values;
  }

  method QuantizeBand(values: seq<real>, bits: nat, ternary: bool, out: array<byte>, start: nat) returns (next: nat)
    requires 1 <= bits <= 31
    requires start + 2 + PackedSize(|values|, Width(bits, ternary)) <= out.Length
    modifies out
    ensures next == start + 2 + PackedSize(|values|, Width(bits, ternary))
    ensures IsRecord(out[start..next], values, bits, ternary)
    ensures out[start] == ScaleOf(values, bits, ternary) % 256 && out[start + 1] == ScaleOf(values, bits, ternary) / 256
    ensures forall i, u :: 0 <= i < |values| && 0 <= u < Pow2(Width(bits, ternary)) ==>
              NotBeaten(out[start..next], values, bits, ternary, i, u)
    ensures forall k :: 0 <= k < out.Length && !(start <= k < next) ==> out[k] == old(out[k])
  {
    hide PackedSize, Val, ToHalf, CodeFor, NotBeaten;
    var amax := PeakOf(values);
    var scale := ExactScale(amax, bits, ternary);
    ScaleNonNegative(amax, bits, ternary);
    var h := ToHalf(scale);
    out[start] := h % 256;
    out[start + 1] := h / 256;
    CodesFit(h, bits, ternary, values);
    next := PackStream(values, CodeFor(h, bits, ternary), if ternary then 2 else bits, out, start + 2);
    assert out[start..next][2..] == out[start + 2..next];
    forall i, u | 0 <= i < |values| && 0 <= u < Pow2(Width(bits, ternary))
      ensures NotBeaten(out[start..next], values, bits, ternary, i, u)
    {
      RecordIsBest(out[start..next], values, bits, ternary, i, u);
    }
  }

  /** With its scale, code u would not bring coefficient i of a record any nearer to its value. */
  ghost predicate NotBeaten(record: seq<byte>, values: seq<real>, bits: nat, ternary: bool, i: nat, u: nat)
    requires |record| >= 2 && bits >= 1 && i < |values|
  {
    Abs(DecodedBand(record, |values|, bits, ternary)[i] - values[i])
    <= Abs(Dequant(u, HalfAt(record[0], record[1]), bits, ternary) - values[i])
  }

  /** Encode the vector x into `out` from `base` on: exactly TotalBytes are written. */
  method BandQuantize(c: BandConfig, x: seq<real>, out: array<byte>, base: nat)
    requires c.Valid() && |x| == c.headDim && base + c.TotalBytes() <= out.Length
    modifies out
    ensures IsEncoding(c, out[base..base + c.TotalBytes()], x)
    ensures forall k :: 0 <= k < out.Length && !(base <= k < base + c.TotalBytes()) ==> out[k] == old(out[k])
  {
    hide IsRecord, PackedSize, BandConfig.RecordOffset, BandConfig.RecordBytes, BandConfig.Size, BandConfig.Offset, EncodesBand;
    var offset: nat := base;
    NextRecord(c, 0);
    for b := 0 to c.Bands()
      invariant offset == base + c.RecordOffset(b) <= out.Length
      invariant Encodes(c, out[base..offset], x, b)
      invariant forall k :: 0 <= k < out.Length && !(base <= k < offset) ==> out[k] == old(out[k])
    {
      SizeNonNegative(c, b);
      NextRecord(c, b);
      RecordsOrdered(c, b + 1, c.Bands());
      ghost var before := out[base..offset];
      var next := QuantizeBand(x[c.Offset(b)..c.Offset(b) + c.Size(b)], c.bandBits[b], c.ternary[b], out, offset);
      assert out[base..next] == before + out[offset..next];
      EncodesNext(c, before, out[offset..next], x, b);
      offset := next;
    }
  }

  lemma NextRecord(c: BandConfig, b: nat)
    requires c.Valid() && b < c.Bands()
    ensures c.RecordOffset(0) == 0
    ensures c.RecordOffset(b + 1) == c.RecordOffset(b) + c.RecordBytes(b)
    ensures 0 <= c.Size(b) && c.RecordBytes(b) == 2 + PackedSize(c.Size(b), Width(c.bandBits[b], c.ternary[b]))
  {
    hide PackedSize, BandConfig.Size;
    SizeNonNegative(c, b);
  }

  lemma EncodesNext(c: BandConfig, before: seq<byte>, record: seq<byte>, x: seq<real>, b: nat)
    requires c.Valid() && b < c.Bands() && |x| == c.headDim && |before| == c.RecordOffset(b)
    requires |record| == c.RecordBytes(b)
    requires Encodes(c, before, x, b) && IsRecord(record, Band(c, x, b), c.bandBits[b], c.ternary[b])
    ensures Encodes(c, before + record, x, b + 1)
  {
    hide IsRecord, PackedSize, BandConfig.RecordOffset, BandConfig.RecordBytes, BandConfig.Size, BandConfig.Offset, Band;
    NextRecord(c, b);
    forall k | 0 <= k < b + 1
      ensures EncodesBand(c, before + record, x, k)
    {
      RecordsOrdered(c, k + 1, b + 1);
      if k < b {
        assert EncodesBand(c, before, x, k);
        RecordsOrdered(c, k, k + 1);
        RecordsOrdered(c, k + 1, b);
        assert Record(c, before + record, k) == Record(c, before, k);
      } else {
        assert Record(c, before + record, k) == record;
      }
    }
  }

  // ---------------------------------------------------------------- the decoders in place

  lemma NothingDecoded(c: BandConfig, bytes: seq<byte>, m: nat)
    requires c.Valid() && Covers(c, bytes, m)
    ensures Decoded(c, bytes, m, 0) == []
  {
  }

  lemma NextPart(c: BandConfig, bytes: seq<byte>, m: nat, b: nat)
    requires c.Valid() && b < c.Bands() && Covers(c, bytes, m)
    ensures Decoded(c, bytes, m, b + 1) == Decoded(c, bytes, m, b) + DecodedPart(c, bytes, m, b)
  {
    hide DecodedPart;
  }

  /** `sp_band_dequantize_partial`: max_bands is clamped into [0, n_bands]; records past it are not read.
      With max_bands == n_bands this is `sp_band_dequantize`. */
  method BandDequantizePartial(c: BandConfig, input: seq<byte>, maxBands: int, out: array<real>)
    requires c.Valid() && out.Length == c.headDim
    requires Covers(c, input, Clamp(maxBands, 0, c.Bands()))
    modifies out
    ensures out[..] == Decode(c, input, Clamp(maxBands, 0, c.Bands()))
  {
    hide DecodedBand, PackedSize, BandConfig.RecordOffset, BandConfig.RecordBytes, BandConfig.Size, BandConfig.Offset;
    NextRecord(c, 0);
    NothingDecoded(c, input, Clamp(maxBands, 0, c.Bands()));
    hide Decoded;
    var m: nat := Clamp(maxBands, 0, c.Bands());
    var offset: nat := 0;
    SizeNonNegative(c, 0);
    for b := 0 to c.Bands()
      invariant b <= m ==> offset == c.RecordOffset(b)
      invariant BandStart(c, b) <= out.Length && out[..BandStart(c, b)] == Decoded(c, input, m, b)
    {
      SizeNonNegative(c, b);
      NextPart(c, input, m, b);
      ghost var before := out[..BandStart(c, b)];
      if b >= m {
        forall i | c.Offset(b) <= i < c.Offset(b) + c.Size(b) {
          out[i] := 0.0;
        }
        assert out[..BandStart(c, b + 1)] == before + Zeros(c.Size(b));
      } else {
        NextRecord(c, b);
        RecordsOrdered(c, b + 1, m);
        var next := DequantizeBand(input, offset, c.bandBits[b], c.ternary[b], out, c.Offset(b), c.Size(b));
        assert out[..BandStart(c, b + 1)] == before + out[c.Offset(b)..c.Offset(b) + c.Size(b)];
        assert input[offset..next] == Record(c, input, b);
        offset := next;
      }
    }
    assert out[..out.Length] == out[..];
  }

  method DequantizeBand(input: seq<byte>, start: nat, bits: nat, ternary: bool, out: array<real>, at: nat, n: nat)
      returns (next: nat)
    requires 1 <= bits <= 31 && at + n <= out.Length
    requires start + 2 + PackedSize(n, Width(bits, ternary)) <= |input|
    modifies out
    ensures next == start + 2 + PackedSize(n, Width(bits, ternary))
    ensures out[at..at + n] == DecodedBand(input[start..next], n, bits, ternary)
    ensures forall k :: 0 <= k < out.Length && !(at <= k < at + n) ==> out[k] == old(out[k])
  {
    hide PackedSize, CodeAt, Dequant;
    var h := HalfAt(input[start], input[start + 1]);
    var codes;
    codes, next := UnpackStream(input, start + 2, n, if ternary then 2 else bits);
    assert input[start..next][2..] == input[start + 2..next];
    for i := 0 to n
      invariant forall k :: 0 <= k < i ==> out[at + k] == Dequant(codes[k], h, bits, ternary)
      invariant forall k :: 0 <= k < out.Length && !(at <= k < at + n) ==> out[k] == old(out[k])
    {
      out[at + i] := Dequant(codes[i], h, bits, ternary);
    }
  }

  // ---------------------------------------------------------------- accuracy

  lemma HalfHeader(h: nat)
    requires h < 65536
    ensures HalfAt(h % 256, h / 256) == h
  {
  }

  /** Decoding the record of a band is within the band's bound at every coefficient. */
  lemma RecordError(record: seq<byte>, values: seq<real>, bits: nat, ternary: bool, i: nat)
    requires 1 <= bits && IsRecord(record, values, bits, ternary) && i < |values|
    ensures Abs(DecodedBand(record, |values|, bits, ternary)[i] - values[i]) <= ValueBound(values[i], Peak(values), bits, ternary)
  {
    hide PackedSize, Val, CodeFor, CodeAt, Dequant, ValueBound, Peak;
    var h := ScaleOf(values, bits, ternary);
    HalfHeader(h);
    CodesFit(h, bits, ternary, values);
    var codes := Codes(values, CodeFor(h, bits, ternary));
    UnpackRecovers(record[2..], codes, Width(bits, ternary), i);
    PeakBounds(values, i);
    ValueError(values[i], Peak(values), bits, ternary, h);
  }

  /** No other code of a record would have decoded nearer to the value. */
  lemma RecordIsBest(record: seq<byte>, values: seq<real>, bits: nat, ternary: bool, i: nat, u: nat)
    requires 1 <= bits && IsRecord(record, values, bits, ternary) && i < |values| && u < Pow2(Width(bits, ternary))
    ensures NotBeaten(record, values, bits, ternary, i, u)
  {
    hide PackedSize, Val, CodeFor, CodeAt, Dequant, Peak, ExactScale, ToHalf, Sanitised, Pow2;
    var h := ScaleOf(values, bits, ternary);
    HalfHeader(h);
    CodesFit(h, bits, ternary, values);
    UnpackRecovers(record[2..], Codes(values, CodeFor(h, bits, ternary)), Width(bits, ternary), i);
    ScaleNonNegative(Peak(values), bits, ternary);
    StoredScale(ExactScale(Peak(values), bits, ternary));
    BestCode(values[i], bits, ternary, h, u);
  }

  /** The error bound of coefficient i of x, which lies in band b, when the first m bands are decoded: the
      codec's bound for a band that was read, the magnitude for one that was not. */
  ghost function ErrorBound(c: BandConfig, x: seq<real>, m: nat, b: nat, i: nat): real
    requires c.Valid() && |x| == c.headDim && b < c.Bands() && i < |x|
  {
    if b < m then ValueBound(x[i], Peak(Band(c, x, b)), c.bandBits[b], c.ternary[b]) else Abs(x[i])
  }

  /** Band b of the decoded vector. */
  lemma {:induction false} DecodedAt(c: BandConfig, bytes: seq<byte>, m: nat, upto: nat, b: nat)
    requires c.Valid() && upto <= c.Bands() && Covers(c, bytes, m) && b < upto
    ensures 0 <= c.Size(b) && c.Offset(b) + c.Size(b) <= BandStart(c, upto)
    ensures Decoded(c, bytes, m, upto)[c.Offset(b)..c.Offset(b) + c.Size(b)] == DecodedPart(c, bytes, m, b)
    decreases upto
  {
    hide DecodedPart, BandConfig.Size, BandConfig.Offset, Covers;
    SizeNonNegative(c, b);
    SizeNonNegative(c, upto - 1);
    var init, part := Decoded(c, bytes, m, upto - 1), DecodedPart(c, bytes, m, upto - 1);
    assert Decoded(c, bytes, m, upto) == init + part;
    hide Decoded;
    if b < upto - 1 {
      DecodedAt(c, bytes, m, upto - 1, b);
      SliceOfPrefix(init, part, c.Offset(b), c.Offset(b) + c.Size(b));
    } else {
      SliceOfSuffix(init, part);
    }
  }

  lemma SliceOfPrefix(init: seq<real>, part: seq<real>, lo: nat, hi: nat)
    requires lo <= hi <= |init|
    ensures (init + part)[lo..hi] == init[lo..hi]
  {
  }

  lemma SliceOfSuffix(init: seq<real>, part: seq<real>)
    ensures (init + part)[|init|..|init| + |part|] == part
  {
  }

  lemma SkippedIsZero(c: BandConfig, bytes: seq<byte>, m: nat, b: nat, k: nat)
    requires c.Valid() && m <= b < c.Bands() && Covers(c, bytes, m) && k < c.Size(b)
    ensures DecodedPart(c, bytes, m, b)[k] == 0.0
  {
  }

  /** Every coefficient of the decoded vector is within its band's bound of the encoded one. */
  lemma DecodeError(c: BandConfig, bytes: seq<byte>, x: seq<real>, m: nat, b: nat, i: nat)
    requires c.Valid() && IsEncoding(c, bytes, x) && m <= c.Bands() && b < c.Bands()
    requires c.Offset(b) <= i < c.Offset(b) + c.Size(b)
    ensures Covers(c, bytes, m) && i < c.headDim
    ensures Abs(Decode(c, bytes, m)[i] - x[i]) <= ErrorBound(c, x, m, b, i)
  {
    hide IsRecord, DecodedBand, ValueBound, PackedSize, Peak, Decoded, BandConfig.RecordOffset, BandConfig.RecordBytes, BandConfig.Size, BandConfig.Offset;
    RecordsOrdered(c, m, c.Bands());
    RecordsOrdered(c, b + 1, c.Bands());
    SizeNonNegative(c, b);
    var y, k := Decode(c, bytes, m), i - c.Offset(b);
    DecodedAt(c, bytes, m, c.Bands(), b);
    assert y[i] == y[c.Offset(b)..c.Offset(b) + c.Size(b)][k];
    assert x[i] == Band(c, x, b)[k];
    if b < m {
      assert EncodesBand(c, bytes, x, b);
      RecordError(Record(c, bytes, b), Band(c, x, b), c.bandBits[b], c.ternary[b], k);
    } else {
      SkippedIsZero(c, bytes, m, b, k);
    }
  }

  /** Coefficients of bands that were not read are zero. */
  lemma {:induction false} TailIsZero(c: BandConfig, bytes: seq<byte>, m: nat, upto: nat, i: nat)
    requires c.Valid() && m <= upto <= c.Bands() && Covers(c, bytes, m) && BandStart(c, m) <= i < BandStart(c, upto)
    ensures Decoded(c, bytes, m, upto)[i] == 0.0
    decreases upto
  {
    hide DecodedBand, PackedSize, BandConfig.RecordOffset, BandConfig.RecordBytes, BandConfig.Size, BandConfig.Offset;
    if m < upto {
      SizeNonNegative(c, upto - 1);
      if i < BandStart(c, upto - 1) {
        TailIsZero(c, bytes, m, upto - 1, i);
      }
    }
  }

  lemma SkippedDecodesToZero(c: BandConfig, bytes: seq<byte>, m: nat, i: nat)
    requires c.Valid() && Covers(c, bytes, m) && BandStart(c, m) <= i < c.headDim
    ensures Decode(c, bytes, m)[i] == 0.0
  {
    hide Decoded, Covers, BandConfig.Size, BandConfig.Offset;
    assert m <= c.Bands() by {
      CoversBands(c, bytes, m);
    }
    TailIsZero(c, bytes, m, c.Bands(), i);
  }

  lemma CoversBands(c: BandConfig, bytes: seq<byte>, m: nat)
    requires c.Valid() && Covers(c, bytes, m)
    ensures m <= c.Bands()
  {
  }

  /** Decoding depends on the records read only. */
  lemma {:induction false} DecodedPrefix(c: BandConfig, a: seq<byte>, bytes: seq<byte>, m: nat, upto: nat)
    requires c.Valid() && upto <= c.Bands() && Covers(c, a, m) && Covers(c, bytes, m)
    requires a[..c.RecordOffset(m)] == bytes[..c.RecordOffset(m)]
    ensures Decoded(c, a, m, upto) == Decoded(c, bytes, m, upto)
    decreases upto
  {
    hide DecodedBand, PackedSize, BandConfig.RecordOffset, BandConfig.RecordBytes, BandConfig.Size, BandConfig.Offset;
    if upto > 0 {
      DecodedPrefix(c, a, bytes, m, upto - 1);
      var b := upto - 1;
      SizeNonNegative(c, b);
      if b < m {
        RecordsOrdered(c, b, b + 1);
        RecordsOrdered(c, b + 1, m);
        assert Record(c, a, b) == a[..c.RecordOffset(m)][c.RecordOffset(b)..c.RecordOffset(b + 1)];
        assert Record(c, bytes, b) == bytes[..c.RecordOffset(m)][c.RecordOffset(b)..c.RecordOffset(b + 1)];
      }
    }
  }
}
