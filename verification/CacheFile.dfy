/** The cache's files (core/src/shannon_prime.c, `sp_write_cache_header_v3`, `sp_read_cache_header_v3`,
    `sp_shadow_cache_save`, `sp_load_layer_kv`). A file is its bytes. Version 3 stores the records band by
    band, so that a load can stop after the first few; version 2 stores whole entries. Both are runs of
    equal cells, one for each head and position. */
module CacheFiles {
  import opened BandCodec
  import opened BandRecords
  import opened BitPack
  import opened IntArith
  import opened ShadowCaches

  const MAGIC: nat := 0x56485432
  const VERSION: nat := 2
  const VERSION_BAND_MAJOR: nat := 3
  const HEADER: nat := 64
  const WORD: nat := 0x1_0000_0000

  // ---------------------------------------------------------------- headers

  function ByteOfWord(q: nat): byte {
    q % 256
  }

  /** A word, low byte first. */
  function WordBytes(w: nat): (bytes: seq<byte>)
    ensures |bytes| == 4
  {
    var q1 := w / 256;
    var q2 := q1 / 256;
    var q3 := q2 / 256;
    [ByteOfWord(w), ByteOfWord(q1), ByteOfWord(q2), ByteOfWord(q3)]
  }

  function HeaderBytes(words: seq<nat>): (bytes: seq<byte>)
    ensures |bytes| == 4 * |words|
  {
    if words == [] then [] else HeaderBytes(words[..|words| - 1]) + WordBytes(words[|words| - 1])
  }

  function WordAt(file: seq<byte>, k: nat): (w: nat)
    requires |file| >= 4 * k + 4
    ensures w < WORD
  {
    var b0: nat, b1: nat, b2: nat, b3: nat := file[4 * k], file[4 * k + 1], file[4 * k + 2], file[4 * k + 3];
    b0 + 256 * b1 + 65536 * b2 + 16777216 * b3
  }

  lemma WordRoundTrip(w: nat)
    ensures WordAt(WordBytes(w), 0) == w % WORD
  {
    var q1 := w / 256;
    var q2 := q1 / 256;
    var q3 := q2 / 256;
    DivModUnique(w, WORD, q3 / 256, w % 256 + 256 * (q1 % 256) + 65536 * (q2 % 256) + 16777216 * (q3 % 256));
  }

  lemma {:induction false} HeaderRoundTrip(words: seq<nat>, rest: seq<byte>, k: nat)
    requires k < |words|
    ensures WordAt(HeaderBytes(words) + rest, k) == words[k] % WORD
  {
    var n := |words| - 1;
    if k < n {
      HeaderRoundTrip(words[..n], WordBytes(words[n]) + rest, k);
      assert HeaderBytes(words) + rest == HeaderBytes(words[..n]) + (WordBytes(words[n]) + rest);
    } else {
      WordRoundTrip(words[n]);
    }
  }

  /** The (int) cast of a header word. */
  function AsInt(w: nat): int {
    if w >= 0x8000_0000 then w - WORD else w
  }

  datatype Verdict = Bad | Refused | Legacy | BandMajor

  function DiskHash(file: seq<byte>): nat
    requires |file| >= HEADER
  {
    WordAt(file, 6) + WORD * WordAt(file, 7)
  }

  predicate HashAccepted(disk: nat, expected: nat, warnOnly: bool) {
    expected == 0 || disk == 0 || disk == expected || warnOnly
  }

  function Judge(file: seq<byte>, expected: nat, warnOnly: bool): Verdict {
    if |file| < HEADER || WordAt(file, 0) != MAGIC then Bad
    else if WordAt(file, 1) != VERSION && WordAt(file, 1) != VERSION_BAND_MAJOR then Bad
    else if !HashAccepted(DiskHash(file), expected, warnOnly) then Refused
    else if WordAt(file, 1) == VERSION then Legacy
    else BandMajor
  }

  function DiskStride(file: seq<byte>): int
    requires |file| >= HEADER
  {
    AsInt(WordAt(file, 2))
  }

  function DiskPositions(file: seq<byte>): int
    requires |file| >= HEADER
  {
    AsInt(WordAt(file, 3))
  }

  function DiskHeads(file: seq<byte>): int
    requires |file| >= HEADER
  {
    AsInt(WordAt(file, 4))
  }

  function DiskBands(file: seq<byte>): int
    requires |file| >= HEADER
  {
    AsInt(WordAt(file, 8))
  }

  // ---------------------------------------------------------------- runs of cells

  /** Where the cell of head ih and position p starts in a run at `at`. */
  function CellAt(at: nat, nPos: nat, size: nat, ih: nat, p: nat): (k: nat)
    ensures k == at + Mul(size, Mul(nPos, ih) + p)
  {
    MulOrder(0, ih, nPos);
    MulOrder(0, Mul(nPos, ih) + p, size);
    at + Mul(size, Mul(nPos, ih) + p)
  }

  function RunEnd(at: nat, nPos: nat, size: nat, heads: nat): (k: nat)
    ensures k == at + Mul(size, Mul(nPos, heads))
  {
    MulOrder(0, heads, nPos);
    MulOrder(0, Mul(nPos, heads), size);
    at + Mul(size, Mul(nPos, heads))
  }

  lemma NextCell(at: nat, nPos: nat, size: nat, ih: nat, p: nat)
    ensures CellAt(at, nPos, size, ih, p + 1) == CellAt(at, nPos, size, ih, p) + size
    ensures CellAt(at, nPos, size, ih + 1, 0) == CellAt(at, nPos, size, ih, nPos) == RunEnd(at, nPos, size, ih + 1)
    ensures CellAt(at, nPos, size, 0, 0) == at == RunEnd(at, nPos, size, 0)
  {
    MulDistributes(size, Mul(nPos, ih) + p, 1);
    MulDistributes(nPos, ih, 1);
    MulOne(size);
    MulOne(nPos);
  }

  /** The cells of the run starting at `at` are bytes [lo, lo + size) of every entry. */
  ghost predicate RunHolds(file: seq<byte>, at: nat, bufs: seq<seq<byte>>, nPos: nat, total: nat, lo: nat, size: nat)
    requires lo + size <= total
  {
    && RunEnd(at, nPos, size, |bufs|) <= |file|
    && forall ih, p :: 0 <= ih < |bufs| && 0 <= p < nPos ==> CellHolds(file, at, bufs, nPos, total, lo, size, ih, p)
  }

  ghost predicate CellHolds(file: seq<byte>, at: nat, bufs: seq<seq<byte>>, nPos: nat, total: nat, lo: nat, size: nat, ih: nat, p: nat)
    requires lo + size <= total && ih < |bufs|
  {
    && CellAt(at, nPos, size, ih, p) + size <= |file|
    && Mul(total, p + 1) <= |bufs[ih]|
    && file[CellAt(at, nPos, size, ih, p)..CellAt(at, nPos, size, ih, p) + size] == Entry(bufs[ih], total, p)[lo..lo + size]
  }

  /** fwrite the cells of one run, heads outermost. */
  method AppendRun(file: seq<byte>, slots: seq<array<byte>>, nPos: nat, total: nat, lo: nat, size: nat) returns (out: seq<byte>)
    requires lo + size <= total && forall i :: 0 <= i < |slots| ==> Mul(total, nPos) <= slots[i].Length
    ensures file <= out && |out| == RunEnd(|file|, nPos, size, |slots|)
    ensures RunHolds(out, |file|, Buffers(slots), nPos, total, lo, size)
  {
    hide Entry, Mul;
    out := file;
    NextCell(|file|, nPos, size, 0, 0);
    for ih := 0 to |slots|
      invariant file <= out && |out| == CellAt(|file|, nPos, size, ih, 0)
      invariant forall i, p :: 0 <= i < ih && 0 <= p < nPos ==> CellHolds(out, |file|, Buffers(slots), nPos, total, lo, size, i, p)
    {
      for p := 0 to nPos
        invariant file <= out && |out| == CellAt(|file|, nPos, size, ih, p)
        invariant forall i, q :: 0 <= i < ih && 0 <= q < nPos ==> CellHolds(out, |file|, Buffers(slots), nPos, total, lo, size, i, q)
        invariant forall q :: 0 <= q < p ==> CellHolds(out, |file|, Buffers(slots), nPos, total, lo, size, ih, q)
      {
        EntryBounds(total, p);
        MulOrder(p + 1, nPos, total);
        ghost var before := out;
        var cell := slots[ih][Mul(total, p) + lo..Mul(total, p) + lo + size];
        out := out + cell;
        NextCell(|file|, nPos, size, ih, p);
        CellWritten(before, cell, |file|, Buffers(slots), nPos, total, lo, size, ih, p);
        forall i, q | 0 <= i < |slots| && 0 <= q < nPos && CellHolds(before, |file|, Buffers(slots), nPos, total, lo, size, i, q)
          ensures CellHolds(out, |file|, Buffers(slots), nPos, total, lo, size, i, q)
        {
          CellStays(before, out, |file|, Buffers(slots), nPos, total, lo, size, i, q);
        }
      }
      NextCell(|file|, nPos, size, ih, 0);
    }
  }

  lemma CellWritten(before: seq<byte>, cell: seq<byte>, at: nat, bufs: seq<seq<byte>>, nPos: nat, total: nat, lo: nat, size: nat, ih: nat, p: nat)
    requires lo + size <= total && ih < |bufs| && Mul(total, p + 1) <= |bufs[ih]| && |before| == CellAt(at, nPos, size, ih, p)
    requires Mul(total, p) >= 0 && Mul(total, p + 1) == Mul(total, p) + total
    requires cell == bufs[ih][Mul(total, p) + lo..Mul(total, p) + lo + size]
    ensures CellHolds(before + cell, at, bufs, nPos, total, lo, size, ih, p)
  {
    hide Mul;
    var k := CellAt(at, nPos, size, ih, p);
    assert (before + cell)[k..k + size] == cell;
    SubSlice(bufs[ih], Mul(total, p), Mul(total, p + 1), lo, lo + size);
  }

  lemma CellStays(before: seq<byte>, after: seq<byte>, at: nat, bufs: seq<seq<byte>>, nPos: nat, total: nat, lo: nat, size: nat, ih: nat, p: nat)
    requires lo + size <= total && ih < |bufs| && before <= after
    requires CellHolds(before, at, bufs, nPos, total, lo, size, ih, p)
    ensures CellHolds(after, at, bufs, nPos, total, lo, size, ih, p)
  {
    hide Mul, Entry;
    var k := CellAt(at, nPos, size, ih, p);
    assert after[k..k + size] == before[k..k + size];
  }

  lemma RunStays(before: seq<byte>, after: seq<byte>, at: nat, bufs: seq<seq<byte>>, nPos: nat, total: nat, lo: nat, size: nat)
    requires lo + size <= total && before <= after && RunHolds(before, at, bufs, nPos, total, lo, size)
    ensures RunHolds(after, at, bufs, nPos, total, lo, size)
  {
    hide CellHolds, Mul;
    forall ih, p | 0 <= ih < |bufs| && 0 <= p < nPos
      ensures CellHolds(after, at, bufs, nPos, total, lo, size, ih, p)
    {
      CellStays(before, after, at, bufs, nPos, total, lo, size, ih, p);
    }
  }

  // ---------------------------------------------------------------- reading a run back

  /** Outside bytes [lo, lo + size) of its first nPos entries, a buffer is as it was. */
  ghost predicate OnlyCells(before: seq<byte>, after: seq<byte>, nPos: nat, total: nat, lo: nat, size: nat)
    requires lo + size <= total
  {
    && |after| == |before| >= Mul(total, nPos)
    && (forall k :: Mul(total, nPos) <= k < |after| ==> 0 <= k && after[k] == before[k])
    && (forall p :: 0 <= p < nPos ==> EntryKept(before, after, total, lo, size, p))
  }

  ghost predicate EntrySame(before: seq<byte>, after: seq<byte>, total: nat, p: nat) {
    Mul(total, p + 1) <= |before| == |after| && Entry(after, total, p) == Entry(before, total, p)
  }

  ghost predicate EntryKept(before: seq<byte>, after: seq<byte>, total: nat, lo: nat, size: nat, p: nat)
    requires lo + size <= total
  {
    && Mul(total, p + 1) <= |before| == |after|
    && Entry(after, total, p)[..lo] == Entry(before, total, p)[..lo]
    && Entry(after, total, p)[lo + size..] == Entry(before, total, p)[lo + size..]
  }

  lemma OnlyCellsRefl(before: seq<byte>, nPos: nat, total: nat, lo: nat, size: nat)
    requires lo + size <= total && |before| >= Mul(total, nPos)
    ensures OnlyCells(before, before, nPos, total, lo, size)
  {
    hide Mul;
    EntryBounds(total, nPos);
    forall p | 0 <= p < nPos
      ensures EntryKept(before, before, total, lo, size, p)
    {
      MulOrder(p + 1, nPos, total);
    }
  }

  lemma OnlyCellsTrans(before: seq<byte>, mid: seq<byte>, after: seq<byte>, nPos: nat, total: nat, lo: nat, size: nat)
    requires lo + size <= total
    requires OnlyCells(before, mid, nPos, total, lo, size) && OnlyCells(mid, after, nPos, total, lo, size)
    ensures OnlyCells(before, after, nPos, total, lo, size)
  {
    hide Mul, Entry;
    EntryBounds(total, nPos);
    forall p | 0 <= p < nPos
      ensures EntryKept(before, after, total, lo, size, p)
    {
      assert EntryKept(before, mid, total, lo, size, p) && EntryKept(mid, after, total, lo, size, p);
    }
  }

  /** Writing within one cell. */
  lemma OneCell(before: seq<byte>, after: seq<byte>, nPos: nat, total: nat, lo: nat, size: nat, p: nat)
    requires lo + size <= total && p < nPos && |after| == |before| >= Mul(total, nPos)
    requires Mul(total, p) >= 0
    requires forall k :: 0 <= k < |after| && !(Mul(total, p) + lo <= k < Mul(total, p) + lo + size) ==> after[k] == before[k]
    ensures OnlyCells(before, after, nPos, total, lo, size)
    ensures forall q :: 0 <= q < nPos && q != p ==> EntrySame(before, after, total, q)
    ensures Mul(total, p) + lo + size <= |after| && Mul(total, p + 1) <= |after|
    ensures Entry(after, total, p)[lo..lo + size] == after[Mul(total, p) + lo..Mul(total, p) + lo + size]
  {
    hide Mul, Entry;
    EntryBounds(total, p);
    MulOrder(p + 1, nPos, total);
    MulOrder(0, nPos, total);
    forall q | 0 <= q < nPos
      ensures EntryKept(before, after, total, lo, size, q)
      ensures q != p ==> EntrySame(before, after, total, q)
    {
      MulOrder(q + 1, nPos, total);
      if q != p {
        OtherEntry(before, after, total, p, q);
      } else {
        SameEntry(before, after, total, lo, size, p);
      }
    }
    SameEntry(before, after, total, lo, size, p);
  }

  lemma SameEntry(before: seq<byte>, after: seq<byte>, total: nat, lo: nat, size: nat, p: nat)
    requires lo + size <= total && Mul(total, p + 1) <= |after| == |before|
    requires Mul(total, p) >= 0 && Mul(total, p + 1) == Mul(total, p) + total
    requires forall k :: 0 <= k < |after| && !(Mul(total, p) + lo <= k < Mul(total, p) + lo + size) ==> after[k] == before[k]
    ensures EntryKept(before, after, total, lo, size, p)
    ensures Entry(after, total, p)[lo..lo + size] == after[Mul(total, p) + lo..Mul(total, p) + lo + size]
  {
    hide Mul;
    var a, b := Mul(total, p), Mul(total, p + 1);
    SubSlice(after, a, b, lo, lo + size);
    SubSlice(after, a, b, 0, lo);
    SubSlice(before, a, b, 0, lo);
    SubSlice(after, a, b, lo + size, total);
    SubSlice(before, a, b, lo + size, total);
    SliceKept(before, after, a, a + lo);
    SliceKept(before, after, a + lo + size, b);
    assert Entry(after, total, p) == after[a..b] && Entry(before, total, p) == before[a..b];
    hide Entry;
    assert Entry(after, total, p)[lo + size..total] == Entry(before, total, p)[lo + size..total];
  }

  lemma SliceKept(before: seq<byte>, after: seq<byte>, lo: nat, hi: nat)
    requires lo <= hi <= |before| == |after| && forall k :: lo <= k < hi ==> after[k] == before[k]
    ensures after[lo..hi] == before[lo..hi]
  {
  }

  /** fread into one cell: as many bytes as the file has left. */
  method ReadCell(file: seq<byte>, cursor: nat, dst: array<byte>, to: nat, size: nat) returns (got: nat)
    requires to + size <= dst.Length && size > 0
    modifies dst
    ensures got == if cursor + size <= |file| then size else if cursor <= |file| then |file| - cursor else 0
    ensures forall k :: 0 <= k < dst.Length ==>
              !(to <= k < to + size) ==> dst[k] == old(dst[k])
    ensures got == size ==> cursor + size <= |file| && dst[to..to + size] == file[cursor..cursor + size]
  {
    got := if cursor + size <= |file| then size else if cursor <= |file| then |file| - cursor else 0;
    forall k | to <= k < to + got {
      dst[k] := file[cursor + (k - to)];
    }
  }

  /** The first upto cells of one head have been read from `at`. */
  ghost predicate HeadRead(file: seq<byte>, at: nat, buf: seq<byte>, upto: nat, total: nat, lo: nat, size: nat)
    requires lo + size <= total
  {
    forall p :: 0 <= p < upto ==> CellRead(file, at, buf, total, lo, size, p)
  }

  ghost predicate CellRead(file: seq<byte>, at: nat, buf: seq<byte>, total: nat, lo: nat, size: nat, p: nat)
    requires lo + size <= total
  {
    && 0 <= Mul(size, p) && at + Mul(size, p) + size <= |file|
    && Mul(total, p + 1) <= |buf|
    && Entry(buf, total, p)[lo..lo + size] == file[at + Mul(size, p)..at + Mul(size, p) + size]
  }

  /** One head's cells; a truncated file ends the head early. */
  method ReadHead(file: seq<byte>, at: nat, dst: array<byte>, nPos: nat, total: nat, lo: nat, size: nat) returns (cursor: nat)
    requires lo + size <= total && Mul(total, nPos) <= dst.Length && size > 0
    modifies dst
    ensures OnlyCells(old(dst[..]), dst[..], nPos, total, lo, size)
    ensures Mul(size, nPos) >= 0
    ensures at + Mul(size, nPos) <= |file| ==>
              cursor == at + Mul(size, nPos) && HeadRead(file, at, dst[..], nPos, total, lo, size)
  {
    hide Mul, Entry, OnlyCells;
    OnlyCellsRefl(dst[..], nPos, total, lo, size);
    EntryBounds(size, nPos);
    cursor := at;
    MulOne(size);
    for p := 0 to nPos
      invariant OnlyCells(old(dst[..]), dst[..], nPos, total, lo, size)
      invariant 0 <= Mul(size, p) && cursor == at + Mul(size, p) && HeadRead(file, at, dst[..], p, total, lo, size)
    {
      EntryBounds(size, p);
      EntryBounds(total, p);
      MulOrder(p + 1, nPos, total);
      MulOrder(p + 1, nPos, size);
      ghost var before := dst[..];
      var got := ReadCell(file, cursor, dst, Mul(total, p) + lo, size);
      OneCell(before, dst[..], nPos, total, lo, size, p);
      OnlyCellsTrans(old(dst[..]), before, dst[..], nPos, total, lo, size);
      if got < size {
        cursor := cursor + got;
        break;
      }
      HeadReadNext(file, at, before, dst[..], nPos, total, lo, size, p);
      cursor := cursor + size;
    }
  }

  lemma HeadReadNext(file: seq<byte>, at: nat, before: seq<byte>, after: seq<byte>, nPos: nat, total: nat, lo: nat, size: nat, p: nat)
    requires lo + size <= total && HeadRead(file, at, before, p, total, lo, size) && p < nPos
    requires 0 <= Mul(size, p) && at + Mul(size, p) + size <= |file|
    requires |before| == |after|
    requires 0 <= Mul(total, p) && Mul(total, p + 1) <= |after| && Mul(total, p) + lo + size <= |after|
    requires forall q :: 0 <= q < nPos && q != p ==> EntrySame(before, after, total, q)
    requires Entry(after, total, p)[lo..lo + size] == after[Mul(total, p) + lo..Mul(total, p) + lo + size]
    requires after[Mul(total, p) + lo..Mul(total, p) + lo + size] == file[at + Mul(size, p)..at + Mul(size, p) + size]
    ensures HeadRead(file, at, after, p + 1, total, lo, size)
  {
    hide Mul, Entry;
    forall q | 0 <= q < p + 1
      ensures CellRead(file, at, after, total, lo, size, q)
    {
      if q < p {
        assert CellRead(file, at, before, total, lo, size, q) && EntrySame(before, after, total, q);
      }
    }
  }

  /** Every buffer changed in its cells only. */
  ghost predicate SlotsOnly(before: seq<seq<byte>>, after: seq<seq<byte>>, nPos: nat, total: nat, lo: nat, size: nat)
    requires lo + size <= total
  {
    |before| == |after| && forall i :: 0 <= i < |after| ==> OnlyCells(before[i], after[i], nPos, total, lo, size)
  }

  /** A head read to its end holds the run's cells. */
  lemma HeadReadHolds(file: seq<byte>, at: nat, bufs: seq<seq<byte>>, nPos: nat, total: nat, lo: nat, size: nat, ih: nat)
    requires lo + size <= total && ih < |bufs|
    requires HeadRead(file, CellAt(at, nPos, size, ih, 0), bufs[ih], nPos, total, lo, size)
    ensures forall p :: 0 <= p < nPos ==> CellHolds(file, at, bufs, nPos, total, lo, size, ih, p)
  {
    hide Mul, Entry;
    forall p | 0 <= p < nPos
      ensures CellHolds(file, at, bufs, nPos, total, lo, size, ih, p)
    {
      assert CellRead(file, CellAt(at, nPos, size, ih, 0), bufs[ih], total, lo, size, p);
      MulDistributes(size, Mul(nPos, ih), p);
    }
  }

  /** fread one run into the buffers. */
  method ReadRun(file: seq<byte>, at: nat, slots: seq<array<byte>>, nPos: nat, total: nat, lo: nat, size: nat)
    requires lo + size <= total && size > 0 && AllDistinct(slots)
    requires forall i :: 0 <= i < |slots| ==> Mul(total, nPos) <= slots[i].Length
    modifies slots
    ensures SlotsOnly(old(Buffers(slots)), Buffers(slots), nPos, total, lo, size)
    ensures RunEnd(at, nPos, size, |slots|) <= |file| ==> RunHolds(file, at, Buffers(slots), nPos, total, lo, size)
  {
    hide Mul, Entry, OnlyCells, HeadRead, CellHolds, HeadsHold, CellAt, RunHolds;
    ghost var start := Buffers(slots);
    NoHeads(file, at, start, nPos, total, lo, size);
    forall i | 0 <= i < |slots|
      ensures OnlyCells(start[i], start[i], nPos, total, lo, size)
    {
      OnlyCellsRefl(start[i], nPos, total, lo, size);
    }
    var cursor: nat := at;
    NextCell(at, nPos, size, 0, 0);
    ghost var whole := RunEnd(at, nPos, size, |slots|) <= |file|;
    for ih := 0 to |slots|
      invariant SlotsOnly(start, Buffers(slots), nPos, total, lo, size)
      invariant forall i :: ih <= i < |slots| ==> slots[i][..] == start[i]
      invariant whole ==> cursor == CellAt(at, nPos, size, ih, 0) && HeadsHold(file, at, Buffers(slots), nPos, total, lo, size, ih)
    {
      ghost var before := Buffers(slots);
      NextCell(at, nPos, size, ih, 0);
      HeadEnd(at, nPos, size, ih, |slots|);
      var head := slots[ih];
      cursor := ReadHead(file, cursor, head, nPos, total, lo, size);
      assert Buffers(slots) == before[ih := head[..]];
      if whole {
        OneMoreHead(file, at, before, Buffers(slots), nPos, total, lo, size, ih);
      }
    }
    if whole {
      AllHeads(file, at, Buffers(slots), nPos, total, lo, size);
    }
  }

  /** The cells of the first heads are those of the run. */
  ghost predicate HeadsHold(file: seq<byte>, at: nat, bufs: seq<seq<byte>>, nPos: nat, total: nat, lo: nat, size: nat, upto: nat)
    requires lo + size <= total && upto <= |bufs|
  {
    forall i, p :: 0 <= i < upto && 0 <= p < nPos ==> CellHolds(file, at, bufs, nPos, total, lo, size, i, p)
  }

  lemma NoHeads(file: seq<byte>, at: nat, bufs: seq<seq<byte>>, nPos: nat, total: nat, lo: nat, size: nat)
    requires lo + size <= total
    ensures HeadsHold(file, at, bufs, nPos, total, lo, size, 0)
  {
  }

  lemma OneMoreHead(file: seq<byte>, at: nat, before: seq<seq<byte>>, after: seq<seq<byte>>, nPos: nat, total: nat, lo: nat, size: nat, ih: nat)
    requires lo + size <= total && ih < |before| == |after| && after == before[ih := after[ih]]
    requires HeadsHold(file, at, before, nPos, total, lo, size, ih)
    requires CellAt(at, nPos, size, ih, 0) + Mul(size, nPos) <= |file|
    requires HeadRead(file, CellAt(at, nPos, size, ih, 0), after[ih], nPos, total, lo, size)
    ensures HeadsHold(file, at, after, nPos, total, lo, size, ih + 1)
  {
    hide Mul, Entry, CellHolds, HeadRead, CellAt;
    HeadReadHolds(file, at, after, nPos, total, lo, size, ih);
    forall i, p | 0 <= i < ih && 0 <= p < nPos
      ensures CellHolds(file, at, after, nPos, total, lo, size, i, p)
    {
      SameBufferHolds(file, at, before, after, nPos, total, lo, size, i, p);
    }
  }

  lemma AllHeads(file: seq<byte>, at: nat, bufs: seq<seq<byte>>, nPos: nat, total: nat, lo: nat, size: nat)
    requires lo + size <= total && HeadsHold(file, at, bufs, nPos, total, lo, size, |bufs|) && RunEnd(at, nPos, size, |bufs|) <= |file|
    ensures RunHolds(file, at, bufs, nPos, total, lo, size)
  {
    hide CellHolds, Mul;
  }

  lemma SameBufferHolds(file: seq<byte>, at: nat, before: seq<seq<byte>>, after: seq<seq<byte>>, nPos: nat, total: nat, lo: nat, size: nat, i: nat, p: nat)
    requires lo + size <= total && i < |before| == |after| && before[i] == after[i]
    requires CellHolds(file, at, before, nPos, total, lo, size, i, p)
    ensures CellHolds(file, at, after, nPos, total, lo, size, i, p)
  {
  }

  lemma HeadEnd(at: nat, nPos: nat, size: nat, ih: nat, heads: nat)
    requires ih < heads
    ensures CellAt(at, nPos, size, ih, 0) + Mul(size, nPos) == CellAt(at, nPos, size, ih + 1, 0) <= RunEnd(at, nPos, size, heads)
  {
    NextCell(at, nPos, size, ih, 0);
    MulDistributes(size, Mul(nPos, ih), nPos);
    MulOrder(ih + 1, heads, nPos);
    MulOrder(Mul(nPos, ih + 1), Mul(nPos, heads), size);
  }

  function ZeroBytes(n: nat): (z: seq<byte>)
    ensures |z| == n
  {
    seq(n, _ => 0)
  }

  /** Every cell of the buffers is zero. */
  ghost predicate CellsZero(bufs: seq<seq<byte>>, nPos: nat, total: nat, lo: nat, size: nat)
    requires lo + size <= total
  {
    forall ih, p :: 0 <= ih < |bufs| && 0 <= p < nPos ==> CellZero(bufs[ih], total, lo, size, p)
  }

  ghost predicate CellZero(buf: seq<byte>, total: nat, lo: nat, size: nat, p: nat)
    requires lo + size <= total
  {
    Mul(total, p + 1) <= |buf| && Entry(buf, total, p)[lo..lo + size] == ZeroBytes(size)
  }

  /** memset one head's cells. */
  method ZeroHead(dst: array<byte>, nPos: nat, total: nat, lo: nat, size: nat)
    requires lo + size <= total && Mul(total, nPos) <= dst.Length
    modifies dst
    ensures OnlyCells(old(dst[..]), dst[..], nPos, total, lo, size)
    ensures forall p :: 0 <= p < nPos ==> CellZero(dst[..], total, lo, size, p)
  {
    hide Mul, Entry, OnlyCells;
    OnlyCellsRefl(dst[..], nPos, total, lo, size);
    for p := 0 to nPos
      invariant OnlyCells(old(dst[..]), dst[..], nPos, total, lo, size)
      invariant forall q :: 0 <= q < p ==> CellZero(dst[..], total, lo, size, q)
    {
      EntryBounds(total, p);
      MulOrder(p + 1, nPos, total);
      ghost var before := dst[..];
      var to := Mul(total, p) + lo;
      forall k | to <= k < to + size {
        dst[k] := 0;
      }
      OneCell(before, dst[..], nPos, total, lo, size, p);
      OnlyCellsTrans(old(dst[..]), before, dst[..], nPos, total, lo, size);
      assert dst[to..to + size] == ZeroBytes(size);
      forall q | 0 <= q < p
        ensures CellZero(dst[..], total, lo, size, q)
      {
        assert CellZero(before, total, lo, size, q) && EntrySame(before, dst[..], total, q);
      }
    }
  }

  method ZeroRun(slots: seq<array<byte>>, nPos: nat, total: nat, lo: nat, size: nat)
    requires lo + size <= total && AllDistinct(slots)
    requires forall i :: 0 <= i < |slots| ==> Mul(total, nPos) <= slots[i].Length
    modifies slots
    ensures SlotsOnly(old(Buffers(slots)), Buffers(slots), nPos, total, lo, size)
    ensures CellsZero(Buffers(slots), nPos, total, lo, size)
  {
    hide Mul, Entry, OnlyCells, CellZero;
    ghost var start := Buffers(slots);
    forall i | 0 <= i < |slots|
      ensures OnlyCells(start[i], start[i], nPos, total, lo, size)
    {
      OnlyCellsRefl(start[i], nPos, total, lo, size);
    }
    for ih := 0 to |slots|
      invariant SlotsOnly(start, Buffers(slots), nPos, total, lo, size)
      invariant forall i :: ih <= i < |slots| ==> slots[i][..] == start[i]
      invariant forall i, p :: 0 <= i < ih && 0 <= p < nPos ==> CellZero(Buffers(slots)[i], total, lo, size, p)
    {
      ghost var before := Buffers(slots);
      var head := slots[ih];
      ZeroHead(head, nPos, total, lo, size);
      assert Buffers(slots) == before[ih := head[..]];
    }
  }

  // ---------------------------------------------------------------- saving a layer

  /** File position of band b's run. */
  function BandAt(c: BandConfig, b: nat, nPos: nat, heads: nat): (at: nat)
    requires c.Valid() && b <= c.Bands()
    ensures at == RunEnd(HEADER, nPos, c.RecordOffset(b), heads)
  {
    RunEnd(HEADER, nPos, c.RecordOffset(b), heads)
  }

  lemma NextBandAt(c: BandConfig, b: nat, nPos: nat, heads: nat)
    requires c.Valid() && b < c.Bands()
    ensures BandAt(c, 0, nPos, heads) == HEADER
    ensures BandAt(c, b + 1, nPos, heads) == RunEnd(BandAt(c, b, nPos, heads), nPos, c.RecordBytes(b), heads)
    ensures c.RecordOffset(b) + c.RecordBytes(b) <= c.TotalBytes() && c.RecordBytes(b) >= 2
  {
    hide Mul, BandConfig.RecordOffset, PackedSize;
    NextRecord(c, b);
    RecordsOrdered(c, b + 1, c.Bands());
    var cells := Mul(nPos, heads);
    MulCommutes(c.RecordOffset(b), cells);
    MulCommutes(c.RecordBytes(b), cells);
    MulCommutes(c.RecordOffset(b + 1), cells);
    MulDistributes(cells, c.RecordOffset(b), c.RecordBytes(b));
    MulCommutes(0, cells);
    MulOne(cells);
  }

  ghost predicate IsHeader(file: seq<byte>, version: nat, total: nat, nPos: nat, heads: nat, kind: nat, hash: nat) {
    && |file| >= HEADER
    && WordAt(file, 0) == MAGIC && WordAt(file, 1) == version
    && WordAt(file, 2) == total % WORD && WordAt(file, 3) == nPos % WORD && WordAt(file, 4) == heads % WORD
    && WordAt(file, 5) == kind % WORD && WordAt(file, 6) == hash % WORD && WordAt(file, 7) == hash / WORD % WORD
  }

  /** A version 3 file of the given buffers. Run offsets are kept modulo 2^32. */
  ghost predicate IsBandMajorFile(file: seq<byte>, c: BandConfig, bufs: seq<seq<byte>>, nPos: nat, kind: nat, hash: nat)
    requires c.Valid()
  {
    && IsHeader(file, VERSION_BAND_MAJOR, c.TotalBytes(), nPos, |bufs|, kind, hash)
    && c.Bands() <= 7 && WordAt(file, 8) == c.Bands()
    && (forall b :: 0 <= b < c.Bands() ==> WordAt(file, 9 + b) == BandAt(c, b, nPos, |bufs|) % WORD)
    && (forall b :: 0 <= b < c.Bands() ==> BandHolds(file, c, bufs, nPos, b))
  }

  ghost predicate BandHolds(file: seq<byte>, c: BandConfig, bufs: seq<seq<byte>>, nPos: nat, b: nat)
    requires c.Valid() && b < c.Bands()
  {
    NextBandAt(c, b, nPos, |bufs|);
    RunHolds(file, BandAt(c, b, nPos, |bufs|), bufs, nPos, c.TotalBytes(), c.RecordOffset(b), c.RecordBytes(b))
  }

  /** A version 2 file: whole entries. */
  ghost predicate IsLegacyFile(file: seq<byte>, c: BandConfig, bufs: seq<seq<byte>>, nPos: nat, kind: nat, hash: nat)
    requires c.Valid()
  {
    && IsHeader(file, VERSION, c.TotalBytes(), nPos, |bufs|, kind, hash)
    && RunHolds(file, HEADER, bufs, nPos, c.TotalBytes(), 0, c.TotalBytes())
  }

  lemma HeaderWords(words: seq<nat>)
    requires |words| == 16
    ensures |HeaderBytes(words)| == HEADER
    ensures forall k :: 0 <= k < 16 ==> WordAt(HeaderBytes(words), k) == words[k] % WORD
  {
    forall k | 0 <= k < 16
      ensures WordAt(HeaderBytes(words), k) == words[k] % WORD
    {
      HeaderRoundTrip(words, [], k);
      assert HeaderBytes(words) + [] == HeaderBytes(words);
    }
  }

  /** What saving a layer leaves on disk. */
  datatype LayerFile = Skipped | Saved(bytes: seq<byte>)

  /** The positions saved: those asked for, or, when none are, the layer's recorded length. */
  function SavedPositions(nPos: int, seqLen: int): int {
    if nPos > 0 then nPos else seqLen
  }

  /** One file of `sp_shadow_cache_save`: the layer's buffers of K or V. */
  method SaveLayer(c: BandConfig, slots: seq<array<byte>>, nPos: int, seqLen: int, kind: nat, hash: nat) returns (file: LayerFile)
    requires c.Valid()
    requires forall i :: 0 <= i < |slots| ==> Mul(c.TotalBytes(), SavedPositions(nPos, seqLen)) <= slots[i].Length
    ensures file.Skipped? <==> nPos <= 0 && seqLen <= 0
    ensures file.Saved? && c.Bands() <= 7 ==>
              IsBandMajorFile(file.bytes, c, Buffers(slots), SavedPositions(nPos, seqLen), kind, hash)
    ensures file.Saved? && c.Bands() > 7 ==>
              IsLegacyFile(file.bytes, c, Buffers(slots), SavedPositions(nPos, seqLen), kind, hash)
  {
    hide IsBandMajorFile, IsLegacyFile, Mul, BandConfig.RecordOffset;
    var layerPos := SavedPositions(nPos, seqLen);
    if layerPos <= 0 {
      return Skipped;
    }
    var bytes := WriteLayer(c, slots, layerPos, kind, hash);
    file := Saved(bytes);
  }

  method WriteLayer(c: BandConfig, slots: seq<array<byte>>, nPos: nat, kind: nat, hash: nat) returns (file: seq<byte>)
    requires c.Valid() && nPos > 0
    requires forall i :: 0 <= i < |slots| ==> Mul(c.TotalBytes(), nPos) <= slots[i].Length
    ensures c.Bands() <= 7 ==> IsBandMajorFile(file, c, Buffers(slots), nPos, kind, hash)
    ensures c.Bands() > 7 ==> IsLegacyFile(file, c, Buffers(slots), nPos, kind, hash)
  {
    hide Mul, BandConfig.RecordOffset, BandConfig.RecordBytes, RunHolds, HeaderBytes, WordAt;
    var total := c.TotalBytes();
    if c.Bands() > 7 {
      var words := [MAGIC, VERSION, total, nPos, |slots|, kind, hash, hash / WORD] + ZeroBytes(8);
      HeaderWords(words);
      ghost var header := HeaderBytes(words);
      file := AppendRun(HeaderBytes(words), slots, nPos, total, 0, total);
      HeaderStays(header, file);
    } else {
      var offsets := BandOffsets(c, nPos, |slots|);
      var words := [MAGIC, VERSION_BAND_MAJOR, total, nPos, |slots|, kind, hash, hash / WORD, c.Bands()]
                   + offsets + ZeroBytes(7 - c.Bands());
      HeaderWords(words);
      ghost var header := HeaderBytes(words);
      file := SaveBands(HeaderBytes(words), c, slots, nPos);
      HeaderStays(header, file);
      forall b | 0 <= b < c.Bands()
        ensures WordAt(file, 9 + b) == BandAt(c, b, nPos, |slots|) % WORD
      {
        assert words[9 + b] == offsets[b];
      }
    }
  }

  lemma HeaderStays(header: seq<byte>, file: seq<byte>)
    requires header <= file && |header| == HEADER
    ensures |file| >= HEADER
    ensures forall k :: 0 <= k < 16 ==> WordAt(file, k) == WordAt(header, k)
  {
    assert forall i :: 0 <= i < |header| ==> file[i] == header[i];
  }

  method BandOffsets(c: BandConfig, nPos: nat, heads: nat) returns (offsets: seq<nat>)
    requires c.Valid()
    ensures |offsets| == c.Bands()
    ensures forall b :: 0 <= b < c.Bands() ==> offsets[b] == BandAt(c, b, nPos, heads) % WORD
  {
    hide Mul, BandConfig.RecordOffset, BandConfig.RecordBytes;
    var off: nat := HEADER;
    offsets := [];
    NextBandAt(c, 0, nPos, heads);
    for b := 0 to c.Bands()
      invariant off == BandAt(c, b, nPos, heads) % WORD
      invariant |offsets| == b && forall k :: 0 <= k < b ==> offsets[k] == BandAt(c, k, nPos, heads) % WORD
    {
      NextBandAt(c, b, nPos, heads);
      offsets := offsets + [off];
      var bytes := RunEnd(0, nPos, c.RecordBytes(b), heads);
      WrapAdd(BandAt(c, b, nPos, heads), bytes);
      off := (off + bytes % WORD) % WORD;
    }
  }

  lemma WrapAdd(a: nat, b: nat)
    ensures (a % WORD + b % WORD) % WORD == (a + b) % WORD
  {
  }

  method SaveBands(header: seq<byte>, c: BandConfig, slots: seq<array<byte>>, nPos: nat) returns (file: seq<byte>)
    requires c.Valid() && |header| == HEADER
    requires forall i :: 0 <= i < |slots| ==> Mul(c.TotalBytes(), nPos) <= slots[i].Length
    ensures header <= file
    ensures forall b :: 0 <= b < c.Bands() ==> BandHolds(file, c, Buffers(slots), nPos, b)
  {
    hide Mul, BandConfig.RecordOffset, BandConfig.RecordBytes, RunHolds;
    file := header;
    NextBandAt(c, 0, nPos, |slots|);
    for b := 0 to c.Bands()
      invariant header <= file && |file| == BandAt(c, b, nPos, |slots|)
      invariant forall k :: 0 <= k < b ==> BandHolds(file, c, Buffers(slots), nPos, k)
    {
      NextBandAt(c, b, nPos, |slots|);
      ghost var before := file;
      file := AppendRun(file, slots, nPos, c.TotalBytes(), c.RecordOffset(b), c.RecordBytes(b));
      forall k | 0 <= k < b
        ensures BandHolds(file, c, Buffers(slots), nPos, k)
      {
        NextBandAt(c, k, nPos, |slots|);
        assert BandHolds(before, c, Buffers(slots), nPos, k);
        RunStays(before, file, BandAt(c, k, nPos, |slots|), Buffers(slots), nPos, c.TotalBytes(), c.RecordOffset(k), c.RecordBytes(k));
      }
    }
  }

  // ---------------------------------------------------------------- loading a layer

  /** Band b of every entry is what loading m bands of the saved buffers leaves there. */
  ghost predicate BandLoaded(c: BandConfig, saved: seq<seq<byte>>, bufs: seq<seq<byte>>, nPos: nat, m: nat, b: nat)
    requires c.Valid() && b < c.Bands()
  {
    |bufs| == |saved| && forall ih, p :: 0 <= ih < |bufs| && 0 <= p < nPos ==> RecordLoaded(c, saved[ih], bufs[ih], p, m, b)
  }

  ghost predicate RecordLoaded(c: BandConfig, saved: seq<byte>, buf: seq<byte>, p: nat, m: nat, b: nat)
    requires c.Valid() && b < c.Bands()
  {
    && Mul(c.TotalBytes(), p + 1) <= |buf| && Mul(c.TotalBytes(), p + 1) <= |saved|
    && c.RecordOffset(b + 1) <= c.TotalBytes()
    && Record(c, Entry(buf, c.TotalBytes(), p), b)
       == if b < m then Record(c, Entry(saved, c.TotalBytes(), p), b) else ZeroBytes(c.RecordBytes(b))
  }

  /** Reading or clearing the run of another band keeps a loaded band. */
  lemma BandSurvives(c: BandConfig, saved: seq<seq<byte>>, before: seq<seq<byte>>, after: seq<seq<byte>>, nPos: nat, m: nat, b: nat, other: nat)
    requires c.Valid() && b < c.Bands() && other < c.Bands() && b != other
    requires BandLoaded(c, saved, before, nPos, m, b)
    requires c.RecordOffset(other) + c.RecordBytes(other) <= c.TotalBytes()
    requires SlotsOnly(before, after, nPos, c.TotalBytes(), c.RecordOffset(other), c.RecordBytes(other))
    ensures BandLoaded(c, saved, after, nPos, m, b)
  {
    hide Mul, Entry, BandConfig.RecordOffset, BandConfig.RecordBytes;
    forall ih, p | 0 <= ih < |after| && 0 <= p < nPos
      ensures RecordLoaded(c, saved[ih], after[ih], p, m, b)
    {
      assert RecordLoaded(c, saved[ih], before[ih], p, m, b);
      assert OnlyCells(before[ih], after[ih], nPos, c.TotalBytes(), c.RecordOffset(other), c.RecordBytes(other));
      assert EntryKept(before[ih], after[ih], c.TotalBytes(), c.RecordOffset(other), c.RecordBytes(other), p);
      RecordKept(c, Entry(before[ih], c.TotalBytes(), p), Entry(after[ih], c.TotalBytes(), p), b, other);
    }
  }

  lemma RecordKept(c: BandConfig, before: seq<byte>, after: seq<byte>, b: nat, other: nat)
    requires c.Valid() && b < c.Bands() && other < c.Bands() && b != other
    requires |before| == |after| == c.TotalBytes() >= c.RecordOffset(b + 1)
    requires c.RecordOffset(other) + c.RecordBytes(other) <= c.TotalBytes()
    requires before[..c.RecordOffset(other)] == after[..c.RecordOffset(other)]
    requires before[c.RecordOffset(other) + c.RecordBytes(other)..] == after[c.RecordOffset(other) + c.RecordBytes(other)..]
    ensures Record(c, before, b) == Record(c, after, b)
  {
    hide BandConfig.RecordOffset, BandConfig.RecordBytes;
    NextRecord(c, b);
    NextRecord(c, other);
    var lo, hi := c.RecordOffset(b), c.RecordOffset(b + 1);
    if b < other {
      RecordsOrdered(c, b + 1, other);
      assert forall k :: lo <= k < hi ==> before[k] == before[..c.RecordOffset(other)][k];
      assert forall k :: lo <= k < hi ==> after[k] == after[..c.RecordOffset(other)][k];
    } else {
      RecordsOrdered(c, other + 1, b);
      var end := c.RecordOffset(other) + c.RecordBytes(other);
      assert forall k :: lo <= k < hi ==> before[k] == before[end..][k - end];
      assert forall k :: lo <= k < hi ==> after[k] == after[end..][k - end];
    }
  }

  /** A run read from a file of the saved buffers restores the band. */
  lemma ReadRestores(c: BandConfig, file: seq<byte>, saved: seq<seq<byte>>, bufs: seq<seq<byte>>, nPos: nat, m: nat, b: nat)
    requires c.Valid() && b < m <= c.Bands() && |saved| == |bufs|
    requires c.RecordOffset(b) + c.RecordBytes(b) <= c.TotalBytes()
    requires RunHolds(file, BandAt(c, b, nPos, |saved|), saved, nPos, c.TotalBytes(), c.RecordOffset(b), c.RecordBytes(b))
    requires RunHolds(file, BandAt(c, b, nPos, |saved|), bufs, nPos, c.TotalBytes(), c.RecordOffset(b), c.RecordBytes(b))
    ensures BandLoaded(c, saved, bufs, nPos, m, b)
  {
    hide Mul, Entry, BandConfig.RecordOffset, BandConfig.RecordBytes;
    NextRecord(c, b);
    var at := BandAt(c, b, nPos, |saved|);
    forall ih, p | 0 <= ih < |bufs| && 0 <= p < nPos
      ensures RecordLoaded(c, saved[ih], bufs[ih], p, m, b)
    {
      assert CellHolds(file, at, saved, nPos, c.TotalBytes(), c.RecordOffset(b), c.RecordBytes(b), ih, p);
      assert CellHolds(file, at, bufs, nPos, c.TotalBytes(), c.RecordOffset(b), c.RecordBytes(b), ih, p);
    }
  }

  lemma ZeroClears(c: BandConfig, saved: seq<seq<byte>>, bufs: seq<seq<byte>>, nPos: nat, m: nat, b: nat)
    requires c.Valid() && m <= b < c.Bands() && |saved| == |bufs|
    requires c.RecordOffset(b) + c.RecordBytes(b) <= c.TotalBytes()
    requires CellsZero(bufs, nPos, c.TotalBytes(), c.RecordOffset(b), c.RecordBytes(b))
    requires forall i :: 0 <= i < |saved| ==> Mul(c.TotalBytes(), nPos) <= |saved[i]|
    ensures BandLoaded(c, saved, bufs, nPos, m, b)
  {
    hide Mul, Entry, BandConfig.RecordOffset, BandConfig.RecordBytes;
    NextRecord(c, b);
    forall ih, p | 0 <= ih < |bufs| && 0 <= p < nPos
      ensures RecordLoaded(c, saved[ih], bufs[ih], p, m, b)
    {
      assert CellZero(bufs[ih], c.TotalBytes(), c.RecordOffset(b), c.RecordBytes(b), p);
      MulOrder(p + 1, nPos, c.TotalBytes());
    }
  }

  /** Clear the bands from m on. */
  method ClearBands(c: BandConfig, slots: seq<array<byte>>, nPos: nat, m: nat, ghost saved: seq<seq<byte>>)
    requires c.Valid() && m <= c.Bands() && AllDistinct(slots) && |saved| == |slots|
    requires forall i :: 0 <= i < |slots| ==> Mul(c.TotalBytes(), nPos) <= slots[i].Length
    modifies slots
    ensures TailKept(old(Buffers(slots)), Buffers(slots), Mul(c.TotalBytes(), nPos))
    ensures (forall i :: 0 <= i < |saved| ==> Mul(c.TotalBytes(), nPos) <= |saved[i]|) ==>
              forall b :: m <= b < c.Bands() ==> BandLoaded(c, saved, Buffers(slots), nPos, m, b)
  {
    hide Mul, BandConfig.RecordOffset, BandConfig.RecordBytes, SlotsOnly, CellsZero, BandLoaded, Entry;
    ghost var fits := forall i :: 0 <= i < |saved| ==> Mul(c.TotalBytes(), nPos) <= |saved[i]|;
    for b := m to c.Bands()
      invariant TailKept(old(Buffers(slots)), Buffers(slots), Mul(c.TotalBytes(), nPos))
      invariant fits ==> forall k :: m <= k < b ==> BandLoaded(c, saved, Buffers(slots), nPos, m, k)
    {
      NextBandAt(c, b, nPos, |slots|);
      ghost var before := Buffers(slots);
      ZeroRun(slots, nPos, c.TotalBytes(), c.RecordOffset(b), c.RecordBytes(b));
      TailOfCells(old(Buffers(slots)), before, Buffers(slots), nPos, c.TotalBytes(), c.RecordOffset(b), c.RecordBytes(b));
      if fits {
        ZeroClears(c, saved, Buffers(slots), nPos, m, b);
        forall k | m <= k < b
          ensures BandLoaded(c, saved, Buffers(slots), nPos, m, k)
        {
          BandSurvives(c, saved, before, Buffers(slots), nPos, m, k, b);
        }
      }
    }
  }

  /** Bytes from `from` on are untouched in every buffer. */
  ghost predicate TailKept(before: seq<seq<byte>>, after: seq<seq<byte>>, from: int) {
    && |before| == |after|
    && forall i :: 0 <= i < |after| ==> |after[i]| == |before[i]| && (0 <= from <= |after[i]| ==> after[i][from..] == before[i][from..])
  }

  lemma TailOfCells(start: seq<seq<byte>>, before: seq<seq<byte>>, after: seq<seq<byte>>, nPos: nat, total: nat, lo: nat, size: nat)
    requires lo + size <= total && SlotsOnly(before, after, nPos, total, lo, size)
    requires TailKept(start, before, Mul(total, nPos))
    ensures TailKept(start, after, Mul(total, nPos))
  {
    hide Mul, Entry;
    forall i | 0 <= i < |after|
      ensures |after[i]| == |start[i]|
      ensures 0 <= Mul(total, nPos) <= |after[i]| ==> after[i][Mul(total, nPos)..] == start[i][Mul(total, nPos)..]
    {
      assert OnlyCells(before[i], after[i], nPos, total, lo, size);
    }
  }

  /** Read the first m bands at the recorded offsets. */
  method ReadBands(c: BandConfig, slots: seq<array<byte>>, file: seq<byte>, nPos: nat, m: nat, ghost saved: seq<seq<byte>>)
    requires c.Valid() && m <= c.Bands() <= 7 && AllDistinct(slots) && |saved| == |slots| && |file| >= HEADER
    requires forall i :: 0 <= i < |slots| ==> Mul(c.TotalBytes(), nPos) <= slots[i].Length
    modifies slots
    ensures TailKept(old(Buffers(slots)), Buffers(slots), Mul(c.TotalBytes(), nPos))
    ensures Readable(c, file, saved, nPos, m)
            && (forall b :: m <= b < c.Bands() ==> BandLoaded(c, saved, old(Buffers(slots)), nPos, m, b)) ==>
              forall b :: 0 <= b < c.Bands() ==> BandLoaded(c, saved, Buffers(slots), nPos, m, b)
  {
    hide Mul, BandConfig.RecordOffset, BandConfig.RecordBytes, SlotsOnly, BandsDone, BandLoaded, Entry, RunHolds, WordAt, TailKept, Readable;
    ghost var start := Buffers(slots);
    ghost var good := Readable(c, file, saved, nPos, m) && BandsDone(c, saved, start, nPos, m, 0);
    TailStart(start, Mul(c.TotalBytes(), nPos));
    for b := 0 to m
      invariant TailKept(start, Buffers(slots), Mul(c.TotalBytes(), nPos))
      invariant good ==> BandsDone(c, saved, Buffers(slots), nPos, m, b)
    {
      NextBandAt(c, b, nPos, |slots|);
      ghost var before := Buffers(slots);
      ReadRun(file, WordAt(file, 9 + b), slots, nPos, c.TotalBytes(), c.RecordOffset(b), c.RecordBytes(b));
      TailOfCells(start, before, Buffers(slots), nPos, c.TotalBytes(), c.RecordOffset(b), c.RecordBytes(b));
      if good {
        ReadableAt(c, file, saved, nPos, m, b);
        ReadRestores(c, file, saved, Buffers(slots), nPos, m, b);
        BandRead(c, saved, before, Buffers(slots), nPos, m, b);
      }
    }
    AllBandsDone(c, saved, start, Buffers(slots), nPos, m);
  }

  /** Loading has dealt with every band but those from b to m. */
  ghost predicate BandsDone(c: BandConfig, saved: seq<seq<byte>>, bufs: seq<seq<byte>>, nPos: nat, m: nat, b: nat)
    requires c.Valid()
  {
    forall k :: 0 <= k < c.Bands() && !(b <= k < m) ==> BandLoaded(c, saved, bufs, nPos, m, k)
  }

  lemma AllBandsDone(c: BandConfig, saved: seq<seq<byte>>, start: seq<seq<byte>>, bufs: seq<seq<byte>>, nPos: nat, m: nat)
    requires c.Valid() && m <= c.Bands()
    ensures BandsDone(c, saved, start, nPos, m, 0) <==> forall b :: m <= b < c.Bands() ==> BandLoaded(c, saved, start, nPos, m, b)
    ensures BandsDone(c, saved, bufs, nPos, m, m) <==> forall b :: 0 <= b < c.Bands() ==> BandLoaded(c, saved, bufs, nPos, m, b)
  {
    hide BandLoaded;
  }

  lemma TailStart(bufs: seq<seq<byte>>, from: int)
    ensures TailKept(bufs, bufs, from)
  {
  }

  /** Loading band b deals with it and keeps what was dealt with. */
  lemma BandRead(c: BandConfig, saved: seq<seq<byte>>, before: seq<seq<byte>>, after: seq<seq<byte>>, nPos: nat, m: nat, b: nat)
    requires c.Valid() && b < m <= c.Bands() && |saved| == |before| == |after|
    requires c.RecordOffset(b) + c.RecordBytes(b) <= c.TotalBytes()
    requires BandsDone(c, saved, before, nPos, m, b) && BandLoaded(c, saved, after, nPos, m, b)
    requires SlotsOnly(before, after, nPos, c.TotalBytes(), c.RecordOffset(b), c.RecordBytes(b))
    ensures BandsDone(c, saved, after, nPos, m, b + 1)
  {
    hide Mul, BandConfig.RecordOffset, BandConfig.RecordBytes, SlotsOnly, BandLoaded;
    forall k | 0 <= k < c.Bands() && !(b + 1 <= k < m)
      ensures BandLoaded(c, saved, after, nPos, m, k)
    {
      if k != b {
        BandSurvives(c, saved, before, after, nPos, m, k, b);
      }
    }
  }

  /** Where a readable file has the run of band b. */
  lemma ReadableAt(c: BandConfig, file: seq<byte>, saved: seq<seq<byte>>, nPos: nat, m: nat, b: nat)
    requires c.Valid() && b < m <= c.Bands() <= 7 && |file| >= HEADER && Readable(c, file, saved, nPos, m)
    ensures WordAt(file, 9 + b) == BandAt(c, b, nPos, |saved|)
    ensures c.RecordOffset(b) + c.RecordBytes(b) <= c.TotalBytes()
    ensures RunHolds(file, BandAt(c, b, nPos, |saved|), saved, nPos, c.TotalBytes(), c.RecordOffset(b), c.RecordBytes(b))
    ensures RunEnd(BandAt(c, b, nPos, |saved|), nPos, c.RecordBytes(b), |saved|) <= |file|
  {
    hide Mul, BandConfig.RecordOffset, BandConfig.RecordBytes, WordAt;
    NextBandAt(c, b, nPos, |saved|);
    assert BandHolds(file, c, saved, nPos, b);
  }

  /** The runs of the first m bands are in the file, where its header says. */
  ghost predicate Readable(c: BandConfig, file: seq<byte>, saved: seq<seq<byte>>, nPos: nat, m: nat)
    requires c.Valid() && m <= c.Bands() <= 7 && |file| >= HEADER
  {
    forall b :: 0 <= b < m ==> BandHolds(file, c, saved, nPos, b) && WordAt(file, 9 + b) == BandAt(c, b, nPos, |saved|)
  }

  /** Every record of every entry is loaded: the first m from the saved buffers, the others zero. */
  ghost predicate Loaded(c: BandConfig, saved: seq<seq<byte>>, bufs: seq<seq<byte>>, nPos: nat, m: nat)
    requires c.Valid()
  {
    forall b :: 0 <= b < c.Bands() ==> BandLoaded(c, saved, bufs, nPos, m, b)
  }

  /** The recorded offset of every band that will be read is the real one: they are kept in 32 bits. */
  predicate OffsetsFit(c: BandConfig, nPos: nat, heads: nat, m: nat)
    requires c.Valid() && m <= c.Bands()
  {
    m == 0 || BandAt(c, m - 1, nPos, heads) < WORD
  }

  lemma OffsetsExact(c: BandConfig, file: seq<byte>, saved: seq<seq<byte>>, nPos: nat, kind: nat, hash: nat, m: nat)
    requires c.Valid() && m <= c.Bands() && IsBandMajorFile(file, c, saved, nPos, kind, hash)
    ensures Readable(c, file, saved, nPos, m) <==> OffsetsFit(c, nPos, |saved|, m)
  {
    hide Mul, BandConfig.RecordOffset, BandConfig.RecordBytes, RunHolds, WordAt;
    if OffsetsFit(c, nPos, |saved|, m) {
      forall b | 0 <= b < m
        ensures BandHolds(file, c, saved, nPos, b) && WordAt(file, 9 + b) == BandAt(c, b, nPos, |saved|)
      {
        RecordsOrdered(c, b, m - 1);
        BandOrder(c, b, m - 1, nPos, |saved|);
      }
    } else {
      assert WordAt(file, 9 + (m - 1)) == BandAt(c, m - 1, nPos, |saved|) % WORD;
    }
  }

  /** Four bands of 5, 5, 4 and 3 bits over 128 coefficients. */
  function FourBands(): BandConfig {
    BandConfig(128, [5, 5, 4, 3], [false, false, false, false])
  }

  lemma FourBandsLayout()
    ensures FourBands().Valid() && FourBands().RecordOffset(1) == 22 && FourBands().RecordOffset(2) == 44
  {
    var c := FourBands();
    assert c.BandSize() == 32 && c.Size(0) == 32 && c.Size(1) == 32;
    assert c.RecordBytes(0) == 22 && c.RecordBytes(1) == 22;
    assert c.RecordOffset(0) == 0;
    assert c.RecordOffset(1) == 22;
  }

  /** A layer of 64 heads with 2^21 positions: its first two bands can be read back, its third cannot. */
  lemma LargeLayerOverflows(file: seq<byte>, saved: seq<seq<byte>>, kind: nat, hash: nat)
    requires |saved| == 64
    requires FourBands().Valid() && IsBandMajorFile(file, FourBands(), saved, 2097152, kind, hash)
    ensures Readable(FourBands(), file, saved, 2097152, 2) && !Readable(FourBands(), file, saved, 2097152, 3)
  {
    hide IsBandMajorFile, Readable;
    var c := FourBands();
    FourBandsLayout();
    OffsetsExact(c, file, saved, 2097152, kind, hash, 2);
    OffsetsExact(c, file, saved, 2097152, kind, hash, 3);
  }

  lemma BandOrder(c: BandConfig, b: nat, e: nat, nPos: nat, heads: nat)
    requires c.Valid() && b <= e <= c.Bands() && c.RecordOffset(b) <= c.RecordOffset(e)
    ensures BandAt(c, b, nPos, heads) <= BandAt(c, e, nPos, heads)
  {
    hide Mul, BandConfig.RecordOffset;
    EntryBounds(nPos, heads);
    MulOrder(c.RecordOffset(b), c.RecordOffset(e), Mul(nPos, heads));
    MulCommutes(c.RecordOffset(b), Mul(nPos, heads));
    MulCommutes(c.RecordOffset(e), Mul(nPos, heads));
  }

  /** The header is one that the loader goes on with: known version, accepted hash, matching layout. */
  ghost predicate Matches(c: BandConfig, heads: nat, file: seq<byte>, expected: nat, warnOnly: bool) {
    && (Judge(file, expected, warnOnly) == Legacy || Judge(file, expected, warnOnly) == BandMajor)
    && DiskStrideIs(c, heads, file)
    && (Judge(file, expected, warnOnly) == BandMajor ==> DiskBands(file) == c.Bands())
  }

  ghost predicate DiskStrideIs(c: BandConfig, heads: nat, file: seq<byte>) {
    c.Valid() && |file| >= HEADER && DiskStride(file) == c.TotalBytes() && DiskHeads(file) == heads
  }

  /** `sp_load_layer_kv`: the positions loaded, 0 for a layer that is skipped, -2 for a refused hash. For a
      file that matches, the buffers must have room for the positions it announces, and its band table the
      seven places it has. */
  method LoadLayer(c: BandConfig, slots: seq<array<byte>>, file: seq<byte>, expected: nat, warnOnly: bool, maxBands: int,
                   ghost saved: seq<seq<byte>>) returns (rc: int)
    requires c.Valid() && AllDistinct(slots) && |saved| == |slots|
    requires Matches(c, |slots|, file, expected, warnOnly) ==>
               && (Judge(file, expected, warnOnly) == BandMajor ==> c.Bands() <= 7)
               && forall i :: 0 <= i < |slots| ==> Mul(c.TotalBytes(), DiskPositions(file)) <= slots[i].Length
    modifies slots
    ensures Matches(c, |slots|, file, expected, warnOnly) ==> rc == DiskPositions(file)
    ensures rc <= 0 ==> Buffers(slots) == old(Buffers(slots))
    ensures Judge(file, expected, warnOnly) == Bad ==> rc == 0 && Buffers(slots) == old(Buffers(slots))
    ensures Judge(file, expected, warnOnly) == Refused ==> rc == -2 && Buffers(slots) == old(Buffers(slots))
    ensures Judge(file, expected, warnOnly).BandMajor? ==>
              if DiskStride(file) != c.TotalBytes() || DiskHeads(file) != |slots| || DiskBands(file) != c.Bands()
              then rc == 0 && Buffers(slots) == old(Buffers(slots)) else rc == DiskPositions(file)
    ensures Judge(file, expected, warnOnly).Legacy? ==>
              if DiskStride(file) != c.TotalBytes() || DiskHeads(file) != |slots|
              then rc == 0 && Buffers(slots) == old(Buffers(slots)) else rc == DiskPositions(file)
    ensures rc > 0 ==> TailKept(old(Buffers(slots)), Buffers(slots), Mul(c.TotalBytes(), rc))
    ensures rc > 0 && Judge(file, expected, warnOnly).BandMajor? && c.Bands() <= 7
            && Readable(c, file, saved, rc, Clamp(maxBands, 0, c.Bands()))
            && (forall i :: 0 <= i < |saved| ==> Mul(c.TotalBytes(), rc) <= |saved[i]|) ==>
              Loaded(c, saved, Buffers(slots), rc, Clamp(maxBands, 0, c.Bands()))
    ensures rc > 0 && Judge(file, expected, warnOnly).Legacy?
            && RunEnd(HEADER, rc, c.TotalBytes(), |slots|) <= |file| ==>
              RunHolds(file, HEADER, Buffers(slots), rc, c.TotalBytes(), 0, c.TotalBytes())
  {
    hide Mul, BandConfig.RecordOffset, BandConfig.RecordBytes, RunHolds, WordAt, BandLoaded, Readable, TailKept, Entry, SlotsOnly;
    match Judge(file, expected, warnOnly)
    case Bad => rc := 0;
    case Refused => rc := -2;
    case Legacy =>
      if DiskStride(file) != c.TotalBytes() || DiskHeads(file) != |slots| {
        return 0;
      }
      rc := DiskPositions(file);
      if rc > 0 {
        LegacyRead(c, slots, file, rc);
      }
    case BandMajor =>
      if DiskStride(file) != c.TotalBytes() || DiskHeads(file) != |slots| || DiskBands(file) != c.Bands() {
        return 0;
      }
      rc := DiskPositions(file);
      if rc > 0 {
        var m := Clamp(maxBands, 0, c.Bands());
        ghost var start := Buffers(slots);
        ClearBands(c, slots, rc, m, saved);
        ghost var cleared := Buffers(slots);
        ReadBands(c, slots, file, rc, m, saved);
        TailTrans(start, cleared, Buffers(slots), Mul(c.TotalBytes(), rc));
      }
  }

  lemma TailTrans(a: seq<seq<byte>>, b: seq<seq<byte>>, d: seq<seq<byte>>, from: int)
    requires TailKept(a, b, from) && TailKept(b, d, from)
    ensures TailKept(a, d, from)
  {
  }

  method LegacyRead(c: BandConfig, slots: seq<array<byte>>, file: seq<byte>, nPos: nat)
    requires c.Valid() && AllDistinct(slots)
    requires forall i :: 0 <= i < |slots| ==> Mul(c.TotalBytes(), nPos) <= slots[i].Length
    modifies slots
    ensures TailKept(old(Buffers(slots)), Buffers(slots), Mul(c.TotalBytes(), nPos))
    ensures RunEnd(HEADER, nPos, c.TotalBytes(), |slots|) <= |file| ==>
              RunHolds(file, HEADER, Buffers(slots), nPos, c.TotalBytes(), 0, c.TotalBytes())
  {
    hide Mul, BandConfig.RecordOffset, BandConfig.RecordBytes, RunHolds, Entry, SlotsOnly;
    NextBandAt(c, 0, nPos, |slots|);
    ghost var start := Buffers(slots);
    ReadRun(file, HEADER, slots, nPos, c.TotalBytes(), 0, c.TotalBytes());
    TailOfCells(start, start, Buffers(slots), nPos, c.TotalBytes(), 0, c.TotalBytes());
  }
}
