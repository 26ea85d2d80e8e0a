/** The two bit packers and their unpackers: the streaming one of the band codec
    (core/src/shannon_prime.c, `sp_band_quantize`, `sp_band_dequantize`) and the random-access one of the
    residual codec (core/src/shannon_prime_sqfree.c, `sp_sqfree_compress_one`, `sp_sqfree_reconstruct_one`).
    Shifts are products and quotients by powers of two; the or of the source is `BitOr`. */
module BitPack {
  import opened Digits
  import opened IntArith

  type byte = x: nat | x < 256

  /** Bytes that n codes of the given width occupy: ceil(n * bits / 8). */
  function PackedSize(n: nat, bits: nat): nat {
    (Place(bits, n) + 7) / 8
  }

  lemma BytesAreDigits(s: seq<byte>)
    ensures AreDigits(s, 8)
  {
    Pow2Of8();
  }

  lemma SubSlice(s: seq<byte>, a: nat, b: nat, lo: nat, hi: nat)
    requires a <= b <= |s| && lo <= hi <= b - a
    ensures s[a..b][lo..hi] == s[a + lo..a + hi]
  {
    var x, y := s[a..b][lo..hi], s[a + lo..a + hi];
    assert |x| == |y|;
    forall t | 0 <= t < |x|
      ensures x[t] == y[t]
    {
    }
  }

  // ---------------------------------------------------------------- the streaming packer

  /** i codes have been fed: their value is that of the bytes written plus the buffered bits above them. */
  ghost predicate Streamed(codes: seq<nat>, bits: nat, i: nat, written: seq<nat>, buffer: nat, bitPos: nat) {
    && i <= |codes|
    && 8 * |written| + bitPos == Place(bits, i)
    && buffer < Pow2(bitPos)
    && Val(codes[..i], bits) == Val(written, 8) + Mul(Pow2(8 * |written|), buffer)
  }

  lemma StreamStart(codes: seq<nat>, bits: nat)
    ensures Streamed(codes, bits, 0, [], 0, 0)
  {
  }

  lemma StreamPush(codes: seq<nat>, bits: nat, i: nat, written: seq<nat>, buffer: nat, bitPos: nat)
    requires Streamed(codes, bits, i, written, buffer, bitPos) && i < |codes| && codes[i] < Pow2(bits)
    ensures Streamed(codes, bits, i + 1, written, BitOr(buffer, Shl(codes[i], bitPos)), bitPos + bits)
  {
    hide Mul, Pow2, Val, Weight, Place;
    var u, p, q := codes[i], Pow2(bitPos), Pow2(8 * |written|);
    OrShl(buffer, u, bitPos);
    // value
    assert codes[..i + 1] == codes[..i] + [u];
    ValAppend(codes[..i], u, bits);
    WeightIsPow2(bits, i);
    Pow2Add(8 * |written|, bitPos);
    MulAssociates(q, p, u);
    MulDistributes(q, buffer, Mul(p, u));
    // range
    Pow2Add(bitPos, bits);
    MulOrder(u + 1, Pow2(bits), p);
    MulDistributes(p, u, 1);
    MulOne(p);
    PlaceNext(bits, i);
  }

  lemma BytePlace(k: nat)
    ensures Place(8, k) == 8 * k
  {
  }

  lemma StreamFlush(codes: seq<nat>, bits: nat, i: nat, written: seq<nat>, buffer: nat, bitPos: nat)
    requires Streamed(codes, bits, i, written, buffer, bitPos) && bitPos >= 8
    ensures Low(buffer, 8) < 256
    ensures Streamed(codes, bits, i, written + [Low(buffer, 8)], Shr(buffer, 8), bitPos - 8)
  {
    hide Mul, Pow2, Val, Weight, Place, Low, Shr;
    var b, rest, q := Low(buffer, 8), Shr(buffer, 8), Pow2(8 * |written|);
    ShrLow(buffer, 8);
    ValAppend(written, b, 8);
    WeightIsPow2(8, |written|);
    BytePlace(|written|);
    Pow2Add(8 * |written|, 8);
    Pow2Of8();
    MulAssociates(q, Pow2(8), rest);
    MulDistributes(q, b, Mul(Pow2(8), rest));
    Pow2Add(8, bitPos - 8);
    ShrBound(buffer, bitPos, 8);
  }

  /** Shifting right by k drops the bound by k bits. */
  lemma ShrBound(x: nat, bound: nat, k: nat)
    requires x < Pow2(bound) && k <= bound
    ensures Shr(x, k) < Pow2(bound - k)
  {
    hide Mul, Pow2, Shr, Low;
    Pow2Add(k, bound - k);
    ShrLow(x, k);
    if Shr(x, k) >= Pow2(bound - k) {
      MulOrder(Pow2(bound - k), Shr(x, k), Pow2(k));
    }
  }

  /** When all codes are in, the bytes plus one last partial byte carry their value. */
  lemma StreamEnd(codes: seq<nat>, bits: nat, written: seq<nat>, buffer: nat, bitPos: nat)
    requires Streamed(codes, bits, |codes|, written, buffer, bitPos) && bitPos < 8
    ensures buffer < 256 && Low(buffer, 8) == buffer
    ensures |written| + (if bitPos > 0 then 1 else 0) == PackedSize(|codes|, bits)
    ensures bitPos == 0 ==> Val(written, 8) == Val(codes, bits)
    ensures bitPos > 0 ==> Val(written + [buffer], 8) == Val(codes, bits)
  {
    hide Mul, Pow2, Val, Weight, Place;
    assert codes[..|codes|] == codes;
    Pow2Mono(bitPos, 8);
    Pow2Of8();
    Pow2Zero();
    MulOne(Pow2(8 * |written|));
    ValAppend(written, buffer, 8);
    WeightIsPow2(8, |written|);
    BytePlace(|written|);
    ShrLowUnique(buffer, 8, 0, buffer) by {
      MulOne(Pow2(8));
    }
  }

  /** Room for one more byte while eight or more bits are buffered. */
  lemma StreamRoom(codes: seq<nat>, bits: nat, i: nat, written: seq<nat>, buffer: nat, bitPos: nat)
    requires Streamed(codes, bits, i, written, buffer, bitPos)
    ensures bitPos >= 8 ==> |written| < PackedSize(|codes|, bits)
    ensures i == |codes| && bitPos > 0 ==> |written| < PackedSize(|codes|, bits)
  {
    PlaceMono(bits, i, |codes|);
  }

  /** The codes of a vector of values. */
  ghost function Codes(values: seq<real>, code: real -> nat): seq<nat> {
    seq(|values|, i requires 0 <= i < |values| => code(values[i]))
  }

  /** Quantise each value with `code` and pack the codes into `out` from `start` on. */
  method PackStream(values: seq<real>, code: real -> nat, bits: nat, out: array<byte>, start: nat) returns (next: nat)
    requires 1 <= bits <= 31 && AreDigits(Codes(values, code), bits)
    requires start + PackedSize(|values|, bits) <= out.Length
    modifies out
    ensures next == start + PackedSize(|values|, bits)
    ensures Val(out[start..next], 8) == Val(Codes(values, code), bits)
    ensures forall x :: 0 <= x < out.Length && !(start <= x < next) ==> out[x] == old(out[x])
  {
    hide Streamed, Val, Pow2, Place, BitOr, Shl, Shr, Low;
    ghost var codes := Codes(values, code);
    var offset: nat, buffer: nat, bitPos: nat := start, 0, 0;
    StreamStart(codes, bits);
    assert out[start..offset] == [];
    for i := 0 to |values|
      invariant start <= offset <= start + PackedSize(|values|, bits)
      invariant bitPos < 8
      invariant Streamed(codes, bits, i, out[start..offset], buffer, bitPos)
      invariant forall x :: 0 <= x < out.Length && !(start <= x < offset) ==> out[x] == old(out[x])
    {
      var u := code(values[i]);
      StreamPush(codes, bits, i, out[start..offset], buffer, bitPos);
      buffer := BitOr(buffer, Shl(u, bitPos));
      bitPos := bitPos + bits;
      while bitPos >= 8
        invariant start <= offset <= start + PackedSize(|values|, bits)
        invariant bitPos <= 38
        invariant Streamed(codes, bits, i + 1, out[start..offset], buffer, bitPos)
        invariant forall x :: 0 <= x < out.Length && !(start <= x < offset) ==> out[x] == old(out[x])
      {
        StreamRoom(codes, bits, i + 1, out[start..offset], buffer, bitPos);
        StreamFlush(codes, bits, i + 1, out[start..offset], buffer, bitPos);
        ghost var written := out[start..offset];
        out[offset] := Low(buffer, 8);
        assert out[start..offset + 1] == written + [Low(buffer, 8)];
        offset, buffer, bitPos := offset + 1, Shr(buffer, 8), bitPos - 8;
      }
    }
    StreamRoom(codes, bits, |values|, out[start..offset], buffer, bitPos);
    StreamEnd(codes, bits, out[start..offset], buffer, bitPos);
    if bitPos > 0 {
      ghost var written := out[start..offset];
      out[offset] := Low(buffer, 8);
      assert out[start..offset + 1] == written + [buffer];
      offset := offset + 1;
    }
    next := offset;
  }

  // ---------------------------------------------------------------- the streaming unpacker

  /** The code at position i of packed bytes. */
  ghost function CodeAt(bytes: seq<nat>, bits: nat, i: nat): nat {
    Low(Shr(Val(bytes, 8), Place(bits, i)), bits)
  }

  /** The buffered bits and the bytes not yet read make up what is left of the value after i codes. */
  ghost predicate Unstreamed(bytes: seq<nat>, bits: nat, i: nat, r: nat, buffer: nat, bitPos: nat) {
    && r <= |bytes|
    && 8 * r == Place(bits, i) + bitPos
    && buffer < Pow2(bitPos)
    && Shr(Val(bytes, 8), Place(bits, i)) == buffer + Mul(Pow2(bitPos), Val(bytes[r..], 8))
  }

  lemma UnstreamStart(bytes: seq<nat>, bits: nat)
    ensures Unstreamed(bytes, bits, 0, 0, 0, 0)
  {
    assert bytes[0..] == bytes;
    PlaceNext(bits, 0);
  }

  lemma UnstreamLoad(bytes: seq<nat>, bits: nat, i: nat, r: nat, buffer: nat, bitPos: nat)
    requires Unstreamed(bytes, bits, i, r, buffer, bitPos) && r < |bytes| && bytes[r] < 256
    ensures Unstreamed(bytes, bits, i, r + 1, BitOr(buffer, Shl(bytes[r], bitPos)), bitPos + 8)
  {
    hide Mul, Pow2, Weight, Place, Shl, Shr;
    var b, p := bytes[r], Pow2(bitPos);
    OrShl(buffer, b, bitPos);
    var tail := bytes[r..];
    assert tail[0] == b && tail[1..] == bytes[r + 1..];
    var rest := Val(bytes[r + 1..], 8);
    assert Val(tail, 8) == b + Mul(Pow2(8), rest);
    Pow2Add(bitPos, 8);
    Pow2Of8();
    MulDistributes(p, b, Mul(Pow2(8), rest));
    MulAssociates(p, Pow2(8), rest);
    MulOrder(b + 1, 256, p);
    MulDistributes(p, b, 1);
    MulOne(p);
  }

  lemma UnstreamTake(bytes: seq<nat>, bits: nat, i: nat, r: nat, buffer: nat, bitPos: nat)
    requires Unstreamed(bytes, bits, i, r, buffer, bitPos) && bitPos >= bits
    ensures Low(buffer, bits) == CodeAt(bytes, bits, i)
    ensures Unstreamed(bytes, bits, i + 1, r, Shr(buffer, bits), bitPos - bits)
  {
    hide Mul, Pow2, Val, Weight, Place, Shr, Low;
    var B, q, rest := Pow2(bits), Pow2(bitPos - bits), Val(bytes[r..], 8);
    var left := Shr(Val(bytes, 8), Place(bits, i));
    var c, d := Low(buffer, bits), Shr(buffer, bits);
    ShrLow(buffer, bits);
    Pow2Add(bits, bitPos - bits);
    MulAssociates(B, q, rest);
    MulDistributes(B, d, Mul(q, rest));
    MulOrder(0, rest, q);
    MulOne(q);
    ShrLowUnique(left, bits, d + Mul(q, rest), c);
    PlaceNext(bits, i);
    ShrShr(Val(bytes, 8), Place(bits, i), bits);
    ShrBound(buffer, bitPos, bits);
  }

  lemma UnstreamRoom(bytes: seq<nat>, bits: nat, i: nat, n: nat, r: nat, buffer: nat, bitPos: nat)
    requires Unstreamed(bytes, bits, i, r, buffer, bitPos) && bitPos < bits && i < n && |bytes| == PackedSize(n, bits)
    ensures r < |bytes|
  {
    PlaceMono(bits, i + 1, n);
    PlaceNext(bits, i);
  }

  /** Read n codes from `input` at `start`: each is the corresponding digit of the bytes' value. */
  method UnpackStream(input: seq<byte>, start: nat, n: nat, bits: nat) returns (codes: seq<nat>, next: nat)
    requires 1 <= bits <= 31 && start + PackedSize(n, bits) <= |input|
    ensures next == start + PackedSize(n, bits)
    ensures |codes| == n && AreDigits(codes, bits)
    ensures forall i :: 0 <= i < n ==> codes[i] == CodeAt(input[start..next], bits, i)
  {
    hide Unstreamed, Val, Pow2, Place, BitOr, CodeAt, Shl, Shr, Low;
    ghost var bytes := input[start..start + PackedSize(n, bits)];
    var byteIdx: nat, buffer: nat, bitPos: nat := start, 0, 0;
    codes := [];
    UnstreamStart(bytes, bits);
    for i := 0 to n
      invariant start <= byteIdx <= start + |bytes| && bitPos < 8
      invariant Unstreamed(bytes, bits, i, byteIdx - start, buffer, bitPos)
      invariant |codes| == i && AreDigits(codes, bits)
      invariant forall k :: 0 <= k < i ==> codes[k] == CodeAt(bytes, bits, k)
    {
      while bitPos < bits
        invariant start <= byteIdx <= start + |bytes| && bitPos < bits + 8
        invariant Unstreamed(bytes, bits, i, byteIdx - start, buffer, bitPos)
        decreases bits - bitPos
      {
        UnstreamRoom(bytes, bits, i, n, byteIdx - start, buffer, bitPos);
        assert bytes[byteIdx - start] == input[byteIdx];
        UnstreamLoad(bytes, bits, i, byteIdx - start, buffer, bitPos);
        buffer := BitOr(buffer, Shl(input[byteIdx], bitPos));
        byteIdx, bitPos := byteIdx + 1, bitPos + 8;
      }
      UnstreamTake(bytes, bits, i, byteIdx - start, buffer, bitPos);
      codes := codes + [Low(buffer, bits)];
      buffer, bitPos := Shr(buffer, bits), bitPos - bits;
    }
    UnstreamEnd(bytes, bits, n, byteIdx - start, buffer, bitPos);
    next := byteIdx;
  }

  /** Fewer than eight bits are left over, so exactly the packed bytes were consumed. */
  lemma UnstreamEnd(bytes: seq<nat>, bits: nat, n: nat, r: nat, buffer: nat, bitPos: nat)
    requires Unstreamed(bytes, bits, n, r, buffer, bitPos) && bitPos < 8
    ensures r == PackedSize(n, bits)
  {
    hide Place, Val, Shr, Mul;
  }

  /** Unpacking what was packed recovers every code. */
  lemma UnpackRecovers(bytes: seq<nat>, codes: seq<nat>, bits: nat, i: nat)
    requires Val(bytes, 8) == Val(codes, bits) && AreDigits(codes, bits) && i < |codes|
    ensures CodeAt(bytes, bits, i) == codes[i]
  {
    ValDigit(codes, bits, i);
  }

  /** Packed bytes are determined by the codes: any two packers agree byte for byte. */
  lemma PackersAgree(a: seq<byte>, b: seq<byte>, codes: seq<nat>, bits: nat)
    requires |a| == |b| && Val(a, 8) == Val(codes, bits) && Val(b, 8) == Val(codes, bits)
    ensures a == b
  {
    BytesAreDigits(a);
    BytesAreDigits(b);
    ValUnique(a, b, 8);
  }

  // ---------------------------------------------------------------- the random-access packer

  /** Byte and shift of code i. */
  function ByteOf(bits: nat, i: nat): nat {
    Place(bits, i) / 8
  }

  function ShiftOf(bits: nat, i: nat): (sh: nat)
    ensures sh < 8
  {
    Place(bits, i) % 8
  }

  lemma PlaceSplit(bits: nat, i: nat)
    ensures Place(bits, i) == 8 * ByteOf(bits, i) + ShiftOf(bits, i)
  {
  }

  lemma CodeInRange(bits: nat, i: nat, n: nat)
    requires 1 <= bits && i < n
    ensures ByteOf(bits, i) < PackedSize(n, bits)
    ensures ShiftOf(bits, i) + bits > 8 ==> ByteOf(bits, i) + 1 < PackedSize(n, bits)
  {
    hide Place;
    PlaceNext(bits, i);
    PlaceMono(bits, i + 1, n);
  }

  /** The part of a code that spills into the next byte. */
  lemma SpillParts(b0: nat, u: nat, sh: nat)
    requires sh < 8 && b0 < Pow2(sh)
    ensures var whole := BitOr(b0, Shl(u, sh));
            whole == b0 + Mul(Pow2(sh), u) && Shr(whole, 8) == Shr(u, 8 - sh)
  {
    hide Pow2, Mul, BitOr, Shl, Shr, Low;
    OrShl(b0, u, sh);
    var v, l := Shr(u, 8 - sh), Low(u, 8 - sh);
    ShrLow(u, 8 - sh);
    Pow2Add(sh, 8 - sh);
    MulAssociates(Pow2(sh), Pow2(8 - sh), v);
    MulDistributes(Pow2(sh), Mul(Pow2(8 - sh), v), l);
    MulOrder(l + 1, Pow2(8 - sh), Pow2(sh));
    MulDistributes(Pow2(sh), l, 1);
    MulOne(Pow2(sh));
    MulOrder(0, l, Pow2(sh));
    ShrLowUnique(b0 + Mul(Pow2(sh), u), 8, v, b0 + Mul(Pow2(sh), l));
  }

  /** Before code i is written, the byte it starts in holds only lower bits and all later bytes are zero. */
  lemma RoomAbove(bytes: seq<nat>, levels: seq<nat>, bits: nat, i: nat)
    requires 1 <= bits && i < |levels| && AreDigits(levels, bits) && AreDigits(bytes, 8)
    requires |bytes| == PackedSize(|levels|, bits) && Val(bytes, 8) == Val(levels[..i], bits)
    ensures ByteOf(bits, i) < |bytes| && bytes[ByteOf(bits, i)] < Pow2(ShiftOf(bits, i))
    ensures forall k :: ByteOf(bits, i) < k < |bytes| ==> bytes[k] == 0
  {
    hide Pow2, Mul, Place, Shr, Low, Weight;
    var x, sh, V := ByteOf(bits, i), ShiftOf(bits, i), Val(bytes, 8);
    CodeInRange(bits, i, |levels|);
    PlaceSplit(bits, i);
    ValBound(levels[..i], bits);
    WeightIsPow2(bits, i);
    ValSplit(bytes, 8, x);
    BytePlace(x);
    ShrBound(V, 8 * x + sh, 8 * x);
    var tail := bytes[x..];
    var rest := Val(tail[1..], 8);
    assert tail[0] == bytes[x];
    assert Val(tail, 8) == bytes[x] + Mul(Pow2(8), rest);
    Pow2Mono(sh, 8);
    MulOrder(0, rest, Pow2(8));
    MulOne(Pow2(8));
    if rest >= 1 {
      MulOrder(1, rest, Pow2(8));
    }
    ZeroValue(tail[1..], 8);
    forall k | x < k < |bytes|
      ensures bytes[k] == 0
    {
      assert bytes[k] == tail[1..][k - x - 1];
    }
  }

  /** The bytes after code u has been or-ed in at position i. */
  ghost function WithCode(bytes: seq<nat>, u: nat, bits: nat, i: nat): seq<nat>
    requires ByteOf(bits, i) < |bytes|
  {
    var x, sh := ByteOf(bits, i), ShiftOf(bits, i);
    var first := bytes[x := Low(BitOr(bytes[x], Shl(u, sh)), 8)];
    if sh + bits > 8 && x + 1 < |bytes| then first[x + 1 := Low(BitOr(first[x + 1], Shr(u, 8 - sh)), 8)] else first
  }

  /** Or-ing in one code adds it to the value at its place. */
  lemma RandomStep(bytes: seq<nat>, levels: seq<nat>, bits: nat, i: nat)
    requires 1 <= bits <= 8 && i < |levels| && AreDigits(levels, bits) && AreDigits(bytes, 8)
    requires |bytes| == PackedSize(|levels|, bits) && Val(bytes, 8) == Val(levels[..i], bits)
    ensures ByteOf(bits, i) < |bytes|
    ensures var after := WithCode(bytes, levels[i], bits, i);
            |after| == |bytes| && AreDigits(after, 8) && Val(after, 8) == Val(levels[..i + 1], bits)
  {
    hide Pow2, Mul, Place, Shr, Low, Weight, BitOr, Shl, Val, ByteOf, ShiftOf;
    var x, sh, u := ByteOf(bits, i), ShiftOf(bits, i), levels[i];
    RoomAbove(bytes, levels, bits, i);
    CodeInRange(bits, i, |levels|);
    PlaceSplit(bits, i);
    var b0 := bytes[x];
    var whole := BitOr(b0, Shl(u, sh));
    var lo, hi := Low(whole, 8), Shr(whole, 8);
    SpillParts(b0, u, sh);
    ShrLow(whole, 8);
    var first := bytes[x := lo];
    ValUpdate(bytes, x, lo, 8);
    BytePlace(x);
    BytePlace(x + 1);
    WeightIsPow2(8, x);
    WeightStep(8, x);
    SpillFits(u, bits, sh);
    BitOrZero(hi);
    if sh + bits > 8 {
      ValUpdate(first, x + 1, hi, 8);
      assert WithCode(bytes, u, bits, i) == first[x + 1 := hi];
    } else {
      MulOne(Weight(8, x + 1));
      assert WithCode(bytes, u, bits, i) == first;
    }
    // V + W (lo - b0) + 256 W hi = V + W (2^sh u) = V + 2^(8 x + sh) u
    var W := Weight(8, x);
    MulCommutes(Pow2(8), W);
    MulAssociates(W, Pow2(8), hi);
    var delta: int := lo as int - b0 as int;
    MulDistributes(W, delta, Mul(Pow2(8), hi));
    Pow2Add(8 * x, sh);
    MulAssociates(W, Pow2(sh), u);
    assert levels[..i + 1] == levels[..i] + [u];
    ValAppend(levels[..i], u, bits);
    WeightIsPow2(bits, i);
  }

  /** What spills is less than a byte, and nothing spills from a code that fits. */
  lemma SpillFits(u: nat, bits: nat, sh: nat)
    requires u < Pow2(bits) && 1 <= bits <= 8 && sh < 8
    ensures Low(Shr(u, 8 - sh), 8) == Shr(u, 8 - sh)
    ensures sh + bits <= 8 ==> Shr(u, 8 - sh) == 0
  {
    hide Pow2, Mul, Shr, Low;
    MulOne(Pow2(8));
    MulOne(Pow2(8 - sh));
    if sh + bits <= 8 {
      Pow2Mono(bits, 8 - sh);
      ShrLowUnique(u, 8 - sh, 0, u);
      ShrLowUnique(0, 8, 0, 0);
    } else {
      ShrBound(u, bits, 8 - sh);
      Pow2Mono(bits - (8 - sh), 8);
      ShrLowUnique(Shr(u, 8 - sh), 8, 0, Shr(u, 8 - sh));
    }
  }

  method PackRandom(levels: seq<nat>, bits: nat, out: array<byte>, start: nat)
    requires 1 <= bits <= 8 && AreDigits(levels, bits)
    requires start + PackedSize(|levels|, bits) <= out.Length
    modifies out
    ensures Val(out[start..start + PackedSize(|levels|, bits)], 8) == Val(levels, bits)
    ensures forall y :: 0 <= y < out.Length && !(start <= y < start + PackedSize(|levels|, bits)) ==> out[y] == old(out[y])
  {
    hide Pow2, Mul, Place, Shr, Low, Weight, BitOr, Shl, Val, ByteOf, ShiftOf, PackedSize;
    var size := PackedSize(|levels|, bits);
    Pow2Of8();
    forall y | start <= y < start + size {
      out[y] := 0;
    }
    ZeroStart(out[start..start + size], levels, bits);
    for i := 0 to |levels|
      invariant Val(out[start..start + size], 8) == Val(levels[..i], bits)
      invariant forall y :: 0 <= y < out.Length && !(start <= y < start + size) ==> out[y] == old(out[y])
    {
      ghost var bytes := out[start..start + size];
      BytesAreDigits(bytes);
      RandomStep(bytes, levels, bits, i);
      CodeInRange(bits, i, |levels|);
      var x, sh := ByteOf(bits, i), ShiftOf(bits, i);
      out[start + x] := Low(BitOr(out[start + x], Shl(levels[i], sh)), 8);
      if sh + bits > 8 && x + 1 < size {
        out[start + x + 1] := Low(BitOr(out[start + x + 1], Shr(levels[i], 8 - sh)), 8);
      }
      assert out[start..start + size] == WithCode(bytes, levels[i], bits, i);
    }
    assert levels[..|levels|] == levels;
  }

  lemma ZeroStart(bytes: seq<nat>, levels: seq<nat>, bits: nat)
    requires forall i :: 0 <= i < |bytes| ==> bytes[i] == 0
    ensures Val(bytes, 8) == Val(levels[..0], bits)
  {
    ValZero(bytes, 8);
  }

  // ---------------------------------------------------------------- the random-access unpacker

  /** The two-byte read of the source. */
  function ReadCode(bytes: seq<byte>, bits: nat, i: nat): nat
    requires ByteOf(bits, i) < |bytes|
  {
    var x, sh := ByteOf(bits, i), ShiftOf(bits, i);
    var packed := Shr(bytes[x], sh);
    var wide := if sh + bits > 8 && x + 1 < |bytes| then BitOr(packed, Shl(bytes[x + 1], 8 - sh)) else packed;
    Low(wide, bits)
  }

  /** Shifting a byte with more bits above it. */
  lemma ShiftByte(b: nat, R: nat, sh: nat)
    requires b < 256 && sh < 8
    ensures Mul(Pow2(8), R) >= 0 && Mul(Pow2(8 - sh), R) >= 0
    ensures Shr(b + Mul(Pow2(8), R), sh) == Shr(b, sh) + Mul(Pow2(8 - sh), R)
    ensures Shr(b, sh) < Pow2(8 - sh)
  {
    hide Pow2, Mul, Shr, Low;
    Pow2Of8();
    ShrBound(b, 8, sh);
    ShrLow(b, sh);
    MulOrder(0, R, Pow2(8));
    MulOrder(0, R, Pow2(8 - sh));
    MulOne(Pow2(8));
    MulOne(Pow2(8 - sh));
    Pow2Add(sh, 8 - sh);
    MulAssociates(Pow2(sh), Pow2(8 - sh), R);
    MulDistributes(Pow2(sh), Shr(b, sh), Mul(Pow2(8 - sh), R));
    ShrLowUnique(b + Mul(Pow2(8), R), sh, Shr(b, sh) + Mul(Pow2(8 - sh), R), Low(b, sh));
  }

  lemma TailValue(bytes: seq<byte>, x: nat)
    requires x < |bytes|
    ensures Shr(Val(bytes, 8), 8 * x) == Val(bytes[x..], 8)
    ensures Val(bytes[x..], 8) == bytes[x] + Mul(Pow2(8), Val(bytes[x + 1..], 8))
  {
    hide Pow2, Mul, Shr, Low, Weight, Place;
    BytesAreDigits(bytes);
    ValSplit(bytes, 8, x);
    BytePlace(x);
    assert bytes[x..][1..] == bytes[x + 1..];
  }

  /** The two-byte read returns the code at that position. */
  lemma ReadIsCode(bytes: seq<byte>, bits: nat, i: nat, n: nat)
    requires 1 <= bits <= 8 && i < n && |bytes| == PackedSize(n, bits)
    ensures ByteOf(bits, i) < |bytes|
    ensures ReadCode(bytes, bits, i) == CodeAt(bytes, bits, i)
  {
    hide Pow2, Mul, Shr, Low, Weight, Place, BitOr, Shl, Val, ByteOf, ShiftOf;
    CodeInRange(bits, i, n);
    PlaceSplit(bits, i);
    var x, sh := ByteOf(bits, i), ShiftOf(bits, i);
    var b0, R := bytes[x], Val(bytes[x + 1..], 8);
    TailValue(bytes, x);
    ShrShr(Val(bytes, 8), 8 * x, sh);
    ShiftByte(b0, R, sh);
    var q := Shr(b0, sh);
    if sh + bits > 8 {
      var b1, S := bytes[x + 1], Val(bytes[x + 2..], 8);
      TailValue(bytes, x + 1);
      OrShl(q, b1, 8 - sh);
      MulDistributes(Pow2(8 - sh), b1, Mul(Pow2(8), S));
      MulAssociates(Pow2(8 - sh), Pow2(8), S);
      Pow2Add(8 - sh, 8);
      LowAddMultiple(q + Mul(Pow2(8 - sh), b1), S, 16 - sh, bits);
    } else {
      LowAddMultiple(q, R, 8 - sh, bits);
    }
  }

  /** The random-access read of all codes agrees with the streaming read. */
  method UnpackRandom(bytes: seq<byte>, n: nat, bits: nat) returns (levels: seq<nat>)
    requires 1 <= bits <= 8 && |bytes| == PackedSize(n, bits)
    ensures |levels| == n
    ensures forall i :: 0 <= i < n ==> levels[i] == CodeAt(bytes, bits, i)
  {
    hide ReadCode, CodeAt, PackedSize, ByteOf;
    levels := [];
    for i := 0 to n
      invariant |levels| == i && forall k :: 0 <= k < i ==> levels[k] == CodeAt(bytes, bits, k)
    {
      ReadIsCode(bytes, bits, i, n);
      levels := levels + [ReadCode(bytes, bits, i)];
    }
  }
}
