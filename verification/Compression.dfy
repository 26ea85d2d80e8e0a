/** What a compressed cache keeps of a vector, and what reading it back can cost
    (core/src/shannon_prime.c, `sp_shadow_write_k`, `sp_shadow_read_k_impl`): transform, permute, encode,
    and back. Transform and permutation preserve distances, so the whole error is the codec's. */
module Compression {
  import opened BandCodec
  import opened BandRecords
  import opened BitPack
  import opened Permutations
  import opened RealArith
  import opened Sums
  import opened Vht2
  import opened Vht2Theory

  /** A sequence as a vector, zero outside its range. */
  ghost function AsVector(x: seq<real>): (v: Vector)
    ensures forall k :: 0 <= k < |x| ==> v(k) == x[k]
  {
    (k: int) => if 0 <= k < |x| then x[k] else 0.0
  }

  /** What the write path encodes: the transformed vector, gathered in the given order. */
  ghost function Stored(h: Kernels, order: seq<int>, x: seq<real>): (z: seq<real>)
    requires |order| == |x| > 0
    ensures |z| == |x|
  {
    seq(|x|, i requires 0 <= i < |x| => Transform(h, |x|, AsVector(x))(order[i]))
  }

  /** y scattered back to the positions the order took it from. */
  ghost function Scattered(order: seq<int>, y: seq<real>): (w: seq<real>)
    requires IsPermutation(order) && |order| == |y|
    ensures |w| == |y|
    ensures forall i :: 0 <= i < |y| ==> w[order[i]] == y[i]
  {
    seq(|y|, j requires 0 <= j < |y| => y[IndexOf(order, j)])
  }

  /** A scatter determines its result. */
  lemma ScatteredUnique(order: seq<int>, y: seq<real>, w: seq<real>)
    requires IsPermutation(order) && |order| == |y| == |w|
    requires forall i :: 0 <= i < |y| ==> 0 <= order[i] < |w| && w[order[i]] == y[i]
    ensures w == Scattered(order, y)
  {
    forall j | 0 <= j < |w|
      ensures w[j] == Scattered(order, y)[j]
    {
      assert w[order[IndexOf(order, j)]] == y[IndexOf(order, j)];
    }
  }

  /** What the read path makes of decoded coefficients y. */
  ghost function Restored(h: Kernels, order: seq<int>, y: seq<real>): (x: seq<real>)
    requires IsPermutation(order) && |order| == |y| > 0
    ensures |x| == |y|
  {
    seq(|y|, i requires 0 <= i < |y| => Transform(h, |y|, AsVector(Scattered(order, y)))(i))
  }

  ghost function SquaredError(a: seq<real>, b: seq<real>): real
    requires |a| == |b|
  {
    Sum(0, |a|, (i: int) => if 0 <= i < |a| then SquareOf(a[i] - b[i]) else 0.0)
  }

  function SquareOf(x: real): real {
    x * x
  }

  /** Restoring is an isometry undoing the storing: the distance to x of what is restored is the distance
      to x's stored form of what was decoded. */
  lemma RestoreKeepsDistance(h: Kernels, s: real, order: seq<int>, x: seq<real>, y: seq<real>)
    requires ValidKernels(h, s) && IsPermutation(order) && |order| == |x| == |y| > 0
    ensures SquaredError(Restored(h, order, y), x) == SquaredError(y, Stored(h, order, x))
  {
    hide ValidKernels, Transform, IsPermutation, SquaredError;
    var n := |x|;
    var v, w := AsVector(x), AsVector(Scattered(order, y));
    var tv := Transform(h, n, v);
    // d = w - T v; its transform is T w - v on [0, n)
    var d := (k: int) => w(k) + (-1.0) * tv(k);
    TransformKeepsEnergy(h, s, n, d);
    RestoredEnergy(h, s, order, x, y, d);
    DecodedEnergy(h, order, x, y, d);
  }

  /** The distance after restoring is the energy of the transformed difference. */
  lemma RestoredEnergy(h: Kernels, s: real, order: seq<int>, x: seq<real>, y: seq<real>, d: Vector)
    requires ValidKernels(h, s) && IsPermutation(order) && |order| == |x| == |y| > 0
    requires var w, tv := AsVector(Scattered(order, y)), Transform(h, |x|, AsVector(x)); d == ((k: int) => w(k) + (-1.0) * tv(k))
    ensures SquaredError(Restored(h, order, y), x) == Energy(|x|, Transform(h, |x|, d))
  {
    hide ValidKernels, Transform, IsPermutation, SquareOf, Sum, Scattered;
    var n := |x|;
    var v, w := AsVector(x), AsVector(Scattered(order, y));
    var tv, tw := Transform(h, n, v), Transform(h, n, w);
    TransformLinear(h, n, -1.0, w, tv, d);
    TransformInvolution(h, s, n, v);
    var td := Transform(h, n, d);
    var out := Restored(h, order, y);
    var f := (i: int) => if 0 <= i < |out| then SquareOf(out[i] - x[i]) else 0.0;
    forall k | 0 <= k < n
      ensures Square(td)(k) == f(k)
    {
      TransformDifference(h, n, v, tv, tw, td, k);
      assert td(k) == out[k] - x[k];
      SquareIs(td, k);
    }
    SumCong(0, n, Square(td), f);
  }

  /** The distance of the decoded coefficients is the energy of the difference. */
  lemma DecodedEnergy(h: Kernels, order: seq<int>, x: seq<real>, y: seq<real>, d: Vector)
    requires IsPermutation(order) && |order| == |x| == |y| > 0
    requires var w, tv := AsVector(Scattered(order, y)), Transform(h, |x|, AsVector(x)); d == ((k: int) => w(k) + (-1.0) * tv(k))
    ensures SquaredError(y, Stored(h, order, x)) == Energy(|x|, d)
  {
    hide Transform, IsPermutation, SquareOf, Sum, Scattered;
    var w, z := AsVector(Scattered(order, y)), Stored(h, order, x);
    var g := (i: int) => if 0 <= i < |y| then SquareOf(y[i] - z[i]) else 0.0;
    forall i | 0 <= i < |order|
      ensures g(i) == Square(d)(order[i])
    {
      OrderInRange(order, i);
      assert w(order[i]) == y[i];
      SquareIs(d, order[i]);
    }
    SumPermuted(order, Square(d), g);
  }

  lemma OrderInRange(order: seq<int>, i: nat)
    requires IsPermutation(order) && i < |order|
    ensures 0 <= order[i] < |order|
  {
  }

  lemma SquareIs(d: Vector, k: int)
    ensures Square(d)(k) == SquareOf(d(k))
  {
  }

  lemma TransformDifference(h: Kernels, n: nat, v: Vector, tv: Vector, tw: Vector, td: Vector, k: int)
    requires n > 0 && SameVector(Transform(h, n, tv), v) && IsCombination(td, tw, -1.0, Transform(h, n, tv))
    ensures td(k) == tw(k) - v(k)
  {
  }

  // ---------------------------------------------------------------- the codec's share

  /** Squared error allowed by the bands [0, upto), the first m of which are decoded. */
  ghost function Budget(c: BandConfig, z: seq<real>, m: nat, upto: nat): real
    requires c.Valid() && |z| == c.headDim && upto <= c.Bands()
  {
    if upto == 0 then 0.0
    else Budget(c, z, m, upto - 1) + Sum(BandStart(c, upto - 1), BandStart(c, upto), SquaredBound(c, z, m, upto - 1))
  }

  /** The squared bounds of the coefficients, as those of band b. */
  ghost function SquaredBound(c: BandConfig, z: seq<real>, m: nat, b: nat): int -> real
    requires c.Valid() && |z| == c.headDim && b < c.Bands()
  {
    (i: int) => if 0 <= i < |z| then SquareOf(ErrorBound(c, z, m, b, i)) else 0.0
  }

  /** Decoding an encoding costs at most the sum of the squared bounds of its coefficients. */
  lemma DecodeBudget(c: BandConfig, bytes: seq<byte>, z: seq<real>, m: nat)
    requires c.Valid() && IsEncoding(c, bytes, z) && m <= c.Bands()
    ensures Covers(c, bytes, m)
    ensures SquaredError(Decode(c, bytes, m), z) <= Budget(c, z, m, c.Bands())
  {
    hide IsEncoding, Decode, BandConfig.RecordOffset, BandConfig.Size, BandConfig.Offset;
    EncodingCovers(c, bytes, z, m);
    var y := Decode(c, bytes, m);
    BandErrors(c, bytes, z, m, c.Bands(), (i: int) => if 0 <= i < |y| then SquareOf(y[i] - z[i]) else 0.0);
  }

  lemma EncodingCovers(c: BandConfig, bytes: seq<byte>, z: seq<real>, m: nat)
    requires c.Valid() && IsEncoding(c, bytes, z) && m <= c.Bands()
    ensures Covers(c, bytes, m) && |z| == c.headDim
  {
    RecordsOrdered(c, m, c.Bands());
  }

  lemma {:induction false} BandErrors(c: BandConfig, bytes: seq<byte>, z: seq<real>, m: nat, upto: nat, f: int -> real)
    requires c.Valid() && IsEncoding(c, bytes, z) && m <= c.Bands() && upto <= c.Bands() && Covers(c, bytes, m)
    requires var y := Decode(c, bytes, m); forall i :: 0 <= i < c.headDim ==> f(i) == SquareOf(y[i] - z[i])
    ensures Sum(0, BandStart(c, upto), f) <= Budget(c, z, m, upto)
  {
    hide Sum, IsEncoding, Decode, Covers, ErrorBound, SquareOf, BandConfig.RecordOffset, BandConfig.Offset, BandConfig.Size;
    SizeNonNegative(c, 0);
    EncodingCovers(c, bytes, z, m);
    if upto == 0 {
      SumZero(0, 0, f);
    } else {
      var b := upto - 1;
      SizeNonNegative(c, b);
      BandErrors(c, bytes, z, m, b, f);
      var lo, g := BandStart(c, b), SquaredBound(c, z, m, b);
      forall i | lo <= i < lo + c.Size(b)
        ensures f(i) <= g(i)
      {
        DecodeError(c, bytes, z, m, b, i);
        SquareMono(Decode(c, bytes, m)[i] - z[i], ErrorBound(c, z, m, b, i));
      }
      SumMono(lo, lo + c.Size(b), f, g);
      SumSplit(0, lo, BandStart(c, upto), f);
    }
  }

  lemma SquareMono(e: real, bound: real)
    requires Abs(e) <= bound
    ensures SquareOf(e) <= SquareOf(bound)
  {
    AbsProduct(e, e, bound, bound);
  }

  /** What comes back from the bytes a vector was stored in, m bands decoded, is within the budget of
      that vector. */
  lemma ReadBackError(h: Kernels, s: real, c: BandConfig, order: seq<int>, bytes: seq<byte>, x: seq<real>, m: nat)
    requires ValidKernels(h, s) && c.Valid() && IsPermutation(order) && |order| == |x| == c.headDim > 0
    requires IsEncoding(c, bytes, Stored(h, order, x)) && m <= c.Bands()
    ensures Covers(c, bytes, m)
    ensures SquaredError(Restored(h, order, Decode(c, bytes, m)), x)
            <= Budget(c, Stored(h, order, x), m, c.Bands())
  {
    hide ValidKernels, IsEncoding, Decode, Covers, Budget, SquaredError, IsPermutation, Stored, Restored;
    DecodeBudget(c, bytes, Stored(h, order, x), m);
    RestoreKeepsDistance(h, s, order, x, Decode(c, bytes, m));
  }

  /** The transform of what is restored has coefficient i of the list in the place the order gives it. */
  lemma TransformOfRestored(h: Kernels, s: real, order: seq<int>, y: seq<real>, i: nat)
    requires ValidKernels(h, s) && IsPermutation(order) && |order| == |y| && i < |y|
    ensures Transform(h, |y|, AsVector(Restored(h, order, y)))(order[i]) == y[i]
  {
    hide ValidKernels, Transform, IsPermutation, Restored;
    var n, w := |y|, AsVector(Scattered(order, y));
    var tw := Transform(h, n, w);
    RestoredAt(h, order, y);
    TransformLocal(h, n, AsVector(Restored(h, order, y)), tw);
    TransformInvolution(h, s, n, w);
    OrderInRange(order, i);
  }

  lemma RestoredAt(h: Kernels, order: seq<int>, y: seq<real>)
    requires IsPermutation(order) && |order| == |y| > 0
    ensures AgreeBelow(|y|, AsVector(Restored(h, order, y)), Transform(h, |y|, AsVector(Scattered(order, y))))
  {
    hide Transform, Scattered;
  }

  /** Coefficient by coefficient: of a vector stored in the given order and read back with m bands, the
      coefficient that the order puts at place i of band b is within its bound, and gone if the band was not
      read. So the order decides what a partial read keeps. */
  lemma CoefficientError(h: Kernels, s: real, c: BandConfig, order: seq<int>, bytes: seq<byte>, x: seq<real>, m: nat, b: nat, i: nat)
    requires ValidKernels(h, s) && c.Valid() && IsPermutation(order) && |order| == |x| == c.headDim > 0
    requires IsEncoding(c, bytes, Stored(h, order, x)) && m <= c.Bands()
    requires b < c.Bands() && c.Offset(b) <= i < c.Offset(b) + c.Size(b)
    ensures i < |x| && Covers(c, bytes, m)
    ensures var kept := Transform(h, |x|, AsVector(Restored(h, order, Decode(c, bytes, m))))(order[i]);
            var was := Transform(h, |x|, AsVector(x))(order[i]);
            && (b < m ==> Abs(kept - was) <= ValueBound(was, Peak(Band(c, Stored(h, order, x), b)), c.bandBits[b], c.ternary[b]))
            && (b >= m ==> kept == 0.0)
  {
    hide ValidKernels, IsEncoding, Covers, Transform, IsPermutation, Restored, Decode, ValueBound, Peak, Band,
      BandConfig.RecordOffset, BandConfig.Size, BandConfig.Offset;
    SizeNonNegative(c, b);
    DecodeError(c, bytes, Stored(h, order, x), m, b, i);
    TransformOfRestored(h, s, order, Decode(c, bytes, m), i);
    if b >= m {
      BandsOrdered(c, m, b);
      SkippedDecodesToZero(c, bytes, m, i);
    }
  }

  lemma {:induction false} BandsOrdered(c: BandConfig, a: nat, b: nat)
    requires c.Valid() && a <= b < c.Bands()
    ensures BandStart(c, a) <= c.Offset(b)
    decreases b
  {
    hide BandConfig.Size, BandConfig.Offset;
    if a < b {
      SizeNonNegative(c, b - 1);
      BandsOrdered(c, a, b - 1);
    }
  }
}
