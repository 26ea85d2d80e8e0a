/** The cache's file formats byte by byte (core/src/shannon_prime.c, `sp_write_cache_header`,
    `sp_write_cache_header_v3`, `sp_read_cache_header_v3`, `sp_shadow_cache_save`). */
module CacheLayout {
  import opened BandCodec
  import opened BitPack
  import opened CacheFiles
  import opened IntArith
  import opened ShadowCaches

  /** The four bytes from `at` on, lowest first. */
  ghost predicate IsWord(file: seq<byte>, at: nat, w: int)
    requires at + 4 <= |file|
  {
    var b0: nat, b1: nat, b2: nat, b3: nat := file[at], file[at + 1], file[at + 2], file[at + 3];
    b0 + 256 * b1 + 65536 * b2 + 16777216 * b3 == w
  }

  /** The first words of both formats. */
  lemma HeaderLayout(file: seq<byte>, version: nat, total: nat, nPos: nat, heads: nat, kind: nat, hash: nat)
    requires IsHeader(file, version, total, nPos, heads, kind, hash) && version < 256
    ensures |file| >= 64 && file[..8] == [0x32, 0x54, 0x48, 0x56, version, 0, 0, 0]
    ensures IsWord(file, 8, total % 0x1_0000_0000) && IsWord(file, 12, nPos % 0x1_0000_0000)
    ensures IsWord(file, 16, heads % 0x1_0000_0000) && IsWord(file, 20, kind % 0x1_0000_0000)
    ensures IsWord(file, 24, hash % 0x1_0000_0000) && IsWord(file, 28, hash / 0x1_0000_0000 % 0x1_0000_0000)
  {
    FourBytes(file[0], file[1], file[2], file[3], 0x32, 0x54, 0x48, 0x56);
    FourBytes(file[4], file[5], file[6], file[7], version, 0, 0, 0);
  }

  /** A word determines its bytes. */
  lemma FourBytes(a: byte, b: byte, c: byte, d: byte, a': nat, b': nat, c': nat, d': nat)
    requires a' < 256 && b' < 256 && c' < 256 && d' < 256
    ensures a + 256 * b + 65536 * c + 16777216 * d == a' + 256 * b' + 65536 * c' + 16777216 * d'
            <==> a == a' && b == b' && c == c' && d == d'
  {
  }

  /** Band-major files: version 3, the number of bands at byte 32, then where each band's run starts; the record
      of band b, head ih and position p follows those of all bands before, of all heads before, and of all
      positions before. */
  lemma BandMajorLayout(file: seq<byte>, c: BandConfig, bufs: seq<seq<byte>>, nPos: nat, kind: nat, hash: nat,
                        b: nat, ih: nat, p: nat, k: nat)
    requires c.Valid() && IsBandMajorFile(file, c, bufs, nPos, kind, hash)
    requires b < c.Bands() && ih < |bufs| && p < nPos && k < c.RecordBytes(b)
    ensures |file| >= 64 && file[..8] == [0x32, 0x54, 0x48, 0x56, 3, 0, 0, 0]
    ensures IsWord(file, 32, c.Bands()) && b < 7
    ensures IsWord(file, 36 + 4 * b, (64 + c.RecordOffset(b) * (nPos * |bufs|)) % 0x1_0000_0000)
    ensures var at := 64 + c.RecordOffset(b) * (nPos * |bufs|) + c.RecordBytes(b) * (nPos * ih + p) + k;
            var from := c.TotalBytes() * p + c.RecordOffset(b) + k;
            0 <= at < |file| && 0 <= from < |bufs[ih]| && file[at] == bufs[ih][from]
  {
    hide BandConfig.RecordOffset, BandConfig.RecordBytes, WordAt, RunHolds;
    HeaderLayout(file, 3, c.TotalBytes(), nPos, |bufs|, kind, hash);
    BandWords(file, c, bufs, nPos, kind, hash, b);
    assert BandHolds(file, c, bufs, nPos, b);
    NextBandAt(c, b, nPos, |bufs|);
    ByteOfCell(file, BandAt(c, b, nPos, |bufs|), bufs, nPos, c.TotalBytes(), c.RecordOffset(b), c.RecordBytes(b), ih, p, k);
  }

  lemma BandWords(file: seq<byte>, c: BandConfig, bufs: seq<seq<byte>>, nPos: nat, kind: nat, hash: nat, b: nat)
    requires c.Valid() && IsBandMajorFile(file, c, bufs, nPos, kind, hash) && b < c.Bands()
    ensures |file| >= 64 && IsWord(file, 32, c.Bands()) && b < 7
    ensures IsWord(file, 36 + 4 * b, (64 + c.RecordOffset(b) * (nPos * |bufs|)) % 0x1_0000_0000)
  {
    hide BandConfig.RecordOffset, BandHolds;
    assert WordAt(file, 9 + b) == BandAt(c, b, nPos, |bufs|) % WORD;
    assert BandAt(c, b, nPos, |bufs|) == 64 + c.RecordOffset(b) * (nPos * |bufs|);
  }

  /** Byte k of one cell of a run. */
  lemma ByteOfCell(file: seq<byte>, at: nat, bufs: seq<seq<byte>>, nPos: nat, total: nat, lo: nat, size: nat, ih: nat, p: nat, k: nat)
    requires lo + size <= total && RunHolds(file, at, bufs, nPos, total, lo, size)
    requires ih < |bufs| && p < nPos && k < size
    ensures 0 <= at + size * (nPos * ih + p) + k < |file| && 0 <= total * p + lo + k < |bufs[ih]|
    ensures file[at + size * (nPos * ih + p) + k] == bufs[ih][total * p + lo + k]
  {
    assert CellHolds(file, at, bufs, nPos, total, lo, size, ih, p);
    var start := CellAt(at, nPos, size, ih, p);
    EntryBounds(total, p);
    assert start == at + size * (nPos * ih + p) && Mul(total, p) == total * p;
    hide Mul;
    assert file[start + k] == file[start..start + size][k];
    assert Entry(bufs[ih], total, p)[lo..lo + size][k] == bufs[ih][Mul(total, p) + lo + k];
  }

  /** Whole-entry files: version 2, then entry after entry, head after head. */
  lemma LegacyLayout(file: seq<byte>, c: BandConfig, bufs: seq<seq<byte>>, nPos: nat, kind: nat, hash: nat, ih: nat, p: nat, k: nat)
    requires c.Valid() && IsLegacyFile(file, c, bufs, nPos, kind, hash)
    requires ih < |bufs| && p < nPos && k < c.TotalBytes()
    ensures |file| >= 64 && file[..8] == [0x32, 0x54, 0x48, 0x56, 2, 0, 0, 0]
    ensures var at, from := 64 + c.TotalBytes() * (nPos * ih + p) + k, c.TotalBytes() * p + k;
            0 <= at < |file| && 0 <= from < |bufs[ih]| && file[at] == bufs[ih][from]
  {
    hide BandConfig.RecordOffset, WordAt, RunHolds;
    HeaderLayout(file, 2, c.TotalBytes(), nPos, |bufs|, kind, hash);
    ByteOfCell(file, HEADER, bufs, nPos, c.TotalBytes(), 0, c.TotalBytes(), ih, p, k);
  }

  /** What a reader makes of the first bytes of a file: wrong magic or version is bad; a file whose hash is
      neither expected nor absent is refused, unless nothing is expected or the mismatch is waved through. */
  lemma VerdictInBytes(file: seq<byte>, expected: nat, warnOnly: bool)
    ensures Judge(file, expected, warnOnly) == Bad <==>
              |file| < 64 || file[..4] != [0x32, 0x54, 0x48, 0x56] || (file[4..8] != [2, 0, 0, 0] && file[4..8] != [3, 0, 0, 0])
    ensures Judge(file, expected, warnOnly) == Refused <==>
              && Judge(file, expected, warnOnly) != Bad && expected != 0 && !warnOnly
              && DiskHash(file) != 0 && DiskHash(file) != expected
    ensures Judge(file, expected, warnOnly) == Legacy ==> file[4] == 2
    ensures Judge(file, expected, warnOnly) == BandMajor ==> file[4] == 3
    ensures |file| >= 64 ==> forall low, high :: IsWord(file, 24, low) && IsWord(file, 28, high) ==>
              DiskHash(file) == low + 0x1_0000_0000 * high
  {
    if |file| >= 64 {
      FourBytes(file[0], file[1], file[2], file[3], 0x32, 0x54, 0x48, 0x56);
      FourBytes(file[4], file[5], file[6], file[7], 2, 0, 0, 0);
      FourBytes(file[4], file[5], file[6], file[7], 3, 0, 0, 0);
    }
  }
}
