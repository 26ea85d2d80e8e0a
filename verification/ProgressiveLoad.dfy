/** The two progressive paths of the cache agree (core/src/shannon_prime.c, `sp_shadow_cache_load_partial`
    and `sp_shadow_read_k_partial`): loading only the first m bands of a file and reading in full is
    loading the file in full and reading m bands; with all bands the saved bytes come back. */
module ProgressiveLoad {
  import opened BandCodec
  import opened BandRecords
  import opened BitPack
  import opened CacheFiles
  import opened Half
  import opened IntArith
  import opened ShadowCaches

  /** A record whose stored scale is zero decodes to zeros, whatever its codes. */
  lemma ZeroRecord(record: seq<byte>, n: nat, bits: nat, ternary: bool)
    requires bits >= 1 && |record| >= 2 && Sanitised(HalfAt(record[0], record[1])) == 0.0
    ensures DecodedBand(record, n, bits, ternary) == Zeros(n)
  {
    hide CodeAt, Sanitised, HalfAt;
    var y := DecodedBand(record, n, bits, ternary);
    forall i | 0 <= i < n
      ensures y[i] == 0.0
    {
      ZeroDequant(CodeAt(record[2..], Width(bits, ternary), i), HalfAt(record[0], record[1]), bits, ternary);
    }
  }

  lemma ZeroScaleStored()
    ensures Sanitised(0) == 0.0
  {
    hide Unit;
    assert 0 as real / 1024.0 == 0.0;
    assert FromHalf(0) == Finite(0.0 * Unit(1));
  }

  lemma ZeroDequant(u: nat, h: nat, bits: nat, ternary: bool)
    requires bits >= 1 && Sanitised(h) == 0.0
    ensures Dequant(u, h, bits, ternary) == 0.0
  {
    hide Sanitised;
  }

  /** The entry that loading m bands leaves for a saved entry. */
  ghost predicate EntryLoaded(c: BandConfig, saved: seq<byte>, loaded: seq<byte>, m: nat)
    requires c.Valid()
  {
    && |saved| == |loaded| == c.TotalBytes()
    && forall b :: 0 <= b < c.Bands() ==> RecordIs(c, saved, loaded, m, b)
  }

  ghost predicate RecordIs(c: BandConfig, saved: seq<byte>, loaded: seq<byte>, m: nat, b: nat)
    requires c.Valid() && b < c.Bands() && |saved| == |loaded| == c.TotalBytes()
  {
    && c.RecordOffset(b + 1) <= c.TotalBytes()
    && Record(c, loaded, b) == if b < m then Record(c, saved, b) else ZeroBytes(c.RecordBytes(b))
  }

  /** Reading a partially loaded entry in full is reading the saved entry in part. */
  lemma {:induction false} PathsAgreeUpTo(c: BandConfig, saved: seq<byte>, loaded: seq<byte>, m: nat, upto: nat)
    requires c.Valid() && upto <= c.Bands() && m <= c.Bands() && EntryLoaded(c, saved, loaded, m)
    requires Covers(c, saved, m) && Covers(c, loaded, c.Bands())
    ensures Decoded(c, loaded, c.Bands(), upto) == Decoded(c, saved, m, upto)
    decreases upto
  {
    hide DecodedBand, PackedSize, BandConfig.RecordOffset, BandConfig.RecordBytes, BandConfig.Size, BandConfig.Offset;
    if upto > 0 {
      var b := upto - 1;
      PathsAgreeUpTo(c, saved, loaded, m, b);
      SizeNonNegative(c, b);
      NextRecord(c, b);
      RecordsOrdered(c, b + 1, c.Bands());
      assert RecordIs(c, saved, loaded, m, b);
      if b >= m {
        ZeroScaleStored();
        ZeroRecord(ZeroBytes(c.RecordBytes(b)), c.Size(b), c.bandBits[b], c.ternary[b]);
      } else {
        RecordsOrdered(c, b + 1, m);
      }
    }
  }

  lemma PathsAgree(c: BandConfig, saved: seq<byte>, loaded: seq<byte>, m: nat)
    requires c.Valid() && m <= c.Bands() && EntryLoaded(c, saved, loaded, m)
    ensures Covers(c, saved, m) && Covers(c, loaded, c.Bands())
    ensures Decode(c, loaded, c.Bands()) == Decode(c, saved, m)
  {
    RecordsOrdered(c, m, c.Bands());
    PathsAgreeUpTo(c, saved, loaded, m, c.Bands());
  }

  /** Loading every band restores the entry. */
  lemma {:induction false} FullLoadUpTo(c: BandConfig, saved: seq<byte>, loaded: seq<byte>, upto: nat)
    requires c.Valid() && upto <= c.Bands() && EntryLoaded(c, saved, loaded, c.Bands())
    ensures c.RecordOffset(upto) <= c.TotalBytes() && loaded[..c.RecordOffset(upto)] == saved[..c.RecordOffset(upto)]
    decreases upto
  {
    hide PackedSize, BandConfig.RecordOffset, BandConfig.RecordBytes;
    RecordsOrdered(c, upto, c.Bands());
    NextRecord(c, 0);
    if upto > 0 {
      var b := upto - 1;
      FullLoadUpTo(c, saved, loaded, b);
      NextRecord(c, b);
      assert RecordIs(c, saved, loaded, c.Bands(), b);
      assert loaded[..c.RecordOffset(upto)] == loaded[..c.RecordOffset(b)] + Record(c, loaded, b);
      assert saved[..c.RecordOffset(upto)] == saved[..c.RecordOffset(b)] + Record(c, saved, b);
    }
  }

  lemma FullLoad(c: BandConfig, saved: seq<byte>, loaded: seq<byte>)
    requires c.Valid() && EntryLoaded(c, saved, loaded, c.Bands())
    ensures loaded == saved
  {
    FullLoadUpTo(c, saved, loaded, c.Bands());
    assert loaded == loaded[..c.TotalBytes()] && saved == saved[..c.TotalBytes()];
  }

  lemma LoadedEntries(c: BandConfig, saved: seq<seq<byte>>, bufs: seq<seq<byte>>, nPos: nat, m: nat, ih: nat, p: nat)
    requires c.Valid() && Loaded(c, saved, bufs, nPos, m) && ih < |saved| && p < nPos
    ensures ih < |bufs| && Mul(c.TotalBytes(), p + 1) <= |bufs[ih]| && Mul(c.TotalBytes(), p + 1) <= |saved[ih]|
    ensures EntryLoaded(c, Entry(saved[ih], c.TotalBytes(), p), Entry(bufs[ih], c.TotalBytes(), p), m)
  {
    hide Mul, Entry, BandConfig.RecordOffset, BandConfig.RecordBytes;
    assert BandLoaded(c, saved, bufs, nPos, m, 0);
    assert RecordLoaded(c, saved[ih], bufs[ih], p, m, 0);
    forall b | 0 <= b < c.Bands()
      ensures RecordIs(c, Entry(saved[ih], c.TotalBytes(), p), Entry(bufs[ih], c.TotalBytes(), p), m, b)
    {
      assert BandLoaded(c, saved, bufs, nPos, m, b);
      assert RecordLoaded(c, saved[ih], bufs[ih], p, m, b);
    }
  }

  /** Entry p of head ih, if the buffer reaches that far. */
  ghost predicate HasEntry(c: BandConfig, bufs: seq<seq<byte>>, ih: nat, p: nat)
    requires c.Valid()
  {
    ih < |bufs| && Mul(c.TotalBytes(), p + 1) <= |bufs[ih]|
  }

  ghost predicate PathsMeet(c: BandConfig, saved: seq<seq<byte>>, part: seq<seq<byte>>, full: seq<seq<byte>>, m: nat, ih: nat, p: nat)
    requires c.Valid()
  {
    && HasEntry(c, saved, ih, p) && HasEntry(c, part, ih, p) && HasEntry(c, full, ih, p)
    && Entry(full[ih], c.TotalBytes(), p) == Entry(saved[ih], c.TotalBytes(), p)
    && Covers(c, Entry(full[ih], c.TotalBytes(), p), m) && Covers(c, Entry(part[ih], c.TotalBytes(), p), c.Bands())
    && Decode(c, Entry(part[ih], c.TotalBytes(), p), c.Bands()) == Decode(c, Entry(full[ih], c.TotalBytes(), p), m)
  }

  ghost predicate Apart(a: seq<array<byte>>, b: seq<array<byte>>) {
    forall x :: x in a ==> x !in b
  }

  /** Save a layer, load it once in part and once in full: at every head and position the full load has the
      saved bytes, and a full read of the partial load is a partial read of the full load. */
  method SaveThenLoad(c: BandConfig, slots: seq<array<byte>>, part: seq<array<byte>>, full: seq<array<byte>>,
                      nPos: nat, kind: nat, hash: nat, m: nat)
    requires c.Valid() && 1 <= c.Bands() <= 7 && m <= c.Bands()
    requires 0 < nPos < 0x8000_0000 && c.TotalBytes() < 0x8000_0000 && |slots| < 0x8000_0000 && hash < WORD * WORD
    requires |slots| == |part| == |full| && AllDistinct(part) && AllDistinct(full)
    requires Apart(slots, part) && Apart(slots, full) && Apart(part, full)
    requires forall i :: 0 <= i < |slots| ==> Mul(c.TotalBytes(), nPos) <= slots[i].Length
    requires forall i :: 0 <= i < |part| ==> Mul(c.TotalBytes(), nPos) <= part[i].Length
    requires forall i :: 0 <= i < |full| ==> Mul(c.TotalBytes(), nPos) <= full[i].Length
    requires OffsetsFit(c, nPos, |slots|, c.Bands())
    modifies part, full
    ensures Buffers(slots) == old(Buffers(slots))
    ensures forall ih, p :: 0 <= ih < |slots| && 0 <= p < nPos ==>
              PathsMeet(c, Buffers(slots), Buffers(part), Buffers(full), m, ih, p)
  {
    hide Mul, BandConfig.RecordOffset, AllDistinct, Entry, Loaded, OffsetsFit, IsBandMajorFile, PathsMeet;
    ghost var saved := Buffers(slots);
    var file := WriteLayer(c, slots, nPos, kind, hash);
    LoadTwice(c, part, full, file, m, hash, nPos, kind, saved);
    forall i | 0 <= i < |slots|
      ensures slots[i][..] == saved[i]
    {
      assert slots[i] in slots;
    }
    assert Buffers(slots) == saved;
    forall ih, p | 0 <= ih < |slots| && 0 <= p < nPos
      ensures PathsMeet(c, saved, Buffers(part), Buffers(full), m, ih, p)
    {
      Meet(c, saved, Buffers(part), Buffers(full), nPos, m, ih, p);
    }
  }

  /** Loading a saved file under its own hash. */
  method LoadSaved(c: BandConfig, slots: seq<array<byte>>, file: seq<byte>, maxBands: int,
                   hash: nat, ghost nPos: nat, ghost kind: nat, ghost saved: seq<seq<byte>>)
    requires c.Valid() && c.Bands() <= 7 && AllDistinct(slots) && |saved| == |slots|
    requires IsBandMajorFile(file, c, saved, nPos, kind, hash) && OffsetsFit(c, nPos, |saved|, c.Bands())
    requires 0 < nPos < 0x8000_0000 && c.TotalBytes() < 0x8000_0000 && |saved| < 0x8000_0000 && hash < WORD * WORD
    requires forall i :: 0 <= i < |slots| ==> Mul(c.TotalBytes(), nPos) <= slots[i].Length
    requires forall i :: 0 <= i < |saved| ==> Mul(c.TotalBytes(), nPos) <= |saved[i]|
    modifies slots
    ensures Loaded(c, saved, Buffers(slots), nPos, Clamp(maxBands, 0, c.Bands()))
  {
    hide Mul, BandConfig.RecordOffset, AllDistinct, Loaded, Readable, OffsetsFit, TailKept, IsBandMajorFile, Judge, DiskStride,
      DiskHeads, DiskBands, DiskPositions;
    var m: nat := Clamp(maxBands, 0, c.Bands());
    HeaderJudged(file, c, saved, nPos, kind, hash);
    FewerBands(c, nPos, |saved|, m);
    OffsetsExact(c, file, saved, nPos, kind, hash, m);
    var rc := LoadLayer(c, slots, file, hash, false, maxBands, saved);
  }

  /** Load a saved file twice, in part and in full. */
  method LoadTwice(c: BandConfig, part: seq<array<byte>>, full: seq<array<byte>>, file: seq<byte>, m: nat,
                   hash: nat, ghost nPos: nat, ghost kind: nat, ghost saved: seq<seq<byte>>)
    requires c.Valid() && m <= c.Bands() <= 7 && AllDistinct(part) && AllDistinct(full) && |saved| == |part| == |full|
    requires Apart(part, full)
    requires IsBandMajorFile(file, c, saved, nPos, kind, hash) && OffsetsFit(c, nPos, |saved|, c.Bands())
    requires 0 < nPos < 0x8000_0000 && c.TotalBytes() < 0x8000_0000 && |saved| < 0x8000_0000 && hash < WORD * WORD
    requires forall i :: 0 <= i < |part| ==> Mul(c.TotalBytes(), nPos) <= part[i].Length
    requires forall i :: 0 <= i < |full| ==> Mul(c.TotalBytes(), nPos) <= full[i].Length
    requires forall i :: 0 <= i < |saved| ==> Mul(c.TotalBytes(), nPos) <= |saved[i]|
    modifies part, full
    ensures Loaded(c, saved, Buffers(part), nPos, m) && Loaded(c, saved, Buffers(full), nPos, c.Bands())
  {
    hide Mul, BandConfig.RecordOffset, AllDistinct, Loaded, OffsetsFit, IsBandMajorFile;
    LoadSaved(c, part, file, m, hash, nPos, kind, saved);
    ghost var partial := Buffers(part);
    LoadSaved(c, full, file, 0x7FFF_FFFF, hash, nPos, kind, saved);
    forall i | 0 <= i < |part|
      ensures part[i][..] == partial[i]
    {
      assert part[i] in part;
    }
    assert Buffers(part) == partial;
  }

  lemma Meet(c: BandConfig, saved: seq<seq<byte>>, part: seq<seq<byte>>, full: seq<seq<byte>>, nPos: nat, m: nat, ih: nat, p: nat)
    requires c.Valid() && m <= c.Bands() && ih < |saved| && p < nPos
    requires Loaded(c, saved, part, nPos, m) && Loaded(c, saved, full, nPos, c.Bands())
    ensures PathsMeet(c, saved, part, full, m, ih, p)
  {
    hide Mul, Entry, Loaded, EntryLoaded, Decode, BandConfig.RecordOffset;
    LoadedEntries(c, saved, part, nPos, m, ih, p);
    LoadedEntries(c, saved, full, nPos, c.Bands(), ih, p);
    var e := Entry(saved[ih], c.TotalBytes(), p);
    FullLoad(c, e, Entry(full[ih], c.TotalBytes(), p));
    PathsAgree(c, e, Entry(part[ih], c.TotalBytes(), p), m);
  }

  /** A saved file is accepted under its own hash. */
  lemma HeaderJudged(file: seq<byte>, c: BandConfig, saved: seq<seq<byte>>, nPos: nat, kind: nat, hash: nat)
    requires c.Valid() && IsBandMajorFile(file, c, saved, nPos, kind, hash)
    requires nPos < 0x8000_0000 && c.TotalBytes() < 0x8000_0000 && |saved| < 0x8000_0000 && hash < WORD * WORD
    ensures |file| >= HEADER && Judge(file, hash, false) == BandMajor
    ensures DiskStride(file) == c.TotalBytes() && DiskHeads(file) == |saved| && DiskBands(file) == c.Bands()
    ensures DiskPositions(file) == nPos
  {
    hide WordAt, BandHolds, BandConfig.RecordOffset;
    assert hash / WORD < WORD;
  }

  lemma FewerBands(c: BandConfig, nPos: nat, heads: nat, m: nat)
    requires c.Valid() && m <= c.Bands() && OffsetsFit(c, nPos, heads, c.Bands())
    ensures OffsetsFit(c, nPos, heads, m)
  {
    hide BandConfig.RecordOffset, Mul;
    if m > 0 {
      RecordsOrdered(c, m - 1, c.Bands() - 1);
      BandOrder(c, m - 1, c.Bands() - 1, nPos, heads);
    }
  }
}
