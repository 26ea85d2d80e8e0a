/** Saving and loading the keys of a compressed cache (core/src/shannon_prime.c, `sp_shadow_cache_save`,
    `sp_shadow_cache_load_partial`) and reading them afterwards: what a write left in one cache is read back
    from another, after a save and a load of any number of bands. */
module CachePersistence {
  import opened BandCodec
  import opened BandRecords
  import opened BitPack
  import opened CacheFiles
  import opened Compression
  import opened IntArith
  import opened Permutations
  import opened ProgressiveLoad
  import opened ShadowCaches
  import opened ShadowRuns
  import opened Vht2
  import opened Vht2Theory

  // ---------------------------------------------------------------- one layer's slots

  /** The buffers of a layer's heads. */
  function LayerSlots(caches: seq<array<byte>>, heads: nat, layers: nat, layer: nat): (slots: seq<array<byte>>)
    requires layer < layers && |caches| == Mul(heads, layers)
    ensures |slots| == heads
    ensures forall ih :: 0 <= ih < heads ==> Slot(heads, layer, ih) < |caches| && slots[ih] == caches[Slot(heads, layer, ih)]
  {
    LayerBounds(heads, layers, layer);
    caches[Mul(heads, layer)..Mul(heads, layer) + heads]
  }

  /** The same for their contents. */
  ghost function LayerBuffers(bufs: seq<seq<byte>>, heads: nat, layers: nat, layer: nat): (slots: seq<seq<byte>>)
    requires layer < layers && |bufs| == Mul(heads, layers)
    ensures |slots| == heads
    ensures forall ih :: 0 <= ih < heads ==> Slot(heads, layer, ih) < |bufs| && slots[ih] == bufs[Slot(heads, layer, ih)]
  {
    LayerBounds(heads, layers, layer);
    bufs[Mul(heads, layer)..Mul(heads, layer) + heads]
  }

  lemma LayerBounds(heads: nat, layers: nat, layer: nat)
    requires layer < layers
    ensures 0 <= Mul(heads, layer) && Mul(heads, layer) + heads <= Mul(heads, layers)
  {
    EntryBounds(heads, layer);
    MulOrder(layer + 1, layers, heads);
  }

  /** The log without the first n positions of a layer. */
  ghost function Forget(log: Log, layer: nat, n: int): Log {
    map key | key in log && !(key.layer == layer && key.pos < n) :: log[key]
  }

  /** Outside a layer nothing changed; in it, nothing from position n on. */
  ghost predicate OnlyLayer(heads: nat, before: seq<seq<byte>>, after: seq<seq<byte>>, layer: nat, from: int) {
    && |before| == |after|
    && forall slot :: 0 <= slot < |after| ==> SlotKept(heads, before, after, layer, from, slot)
  }

  ghost predicate SlotKept(heads: nat, before: seq<seq<byte>>, after: seq<seq<byte>>, layer: nat, from: int, slot: nat)
    requires slot < |before| == |after|
  {
    && |after[slot]| == |before[slot]|
    && (!(Mul(heads, layer) <= slot < Mul(heads, layer) + heads) ==> after[slot] == before[slot])
    && (0 <= from <= |after[slot]| ==> after[slot][from..] == before[slot][from..])
  }

  /** What is still logged is still encoded. */
  lemma HoldsAfterLoad(c: BandConfig, h: Kernels, order: seq<int>, heads: nat, before: seq<seq<byte>>, after: seq<seq<byte>>,
                       log: Log, layer: nat, n: nat)
    requires c.Valid() && Holds(c, h, order, heads, before, log)
    requires OnlyLayer(heads, before, after, layer, Mul(c.TotalBytes(), n))
    ensures Holds(c, h, order, heads, after, Forget(log, layer, n))
  {
    hide IsEncoding, Stored, Mul, BandConfig.RecordOffset, Slot, Entry;
    var kept := Forget(log, layer, n);
    forall key | key in kept
      ensures HoldsKey(c, h, order, heads, after, key, kept[key])
    {
      assert HoldsKey(c, h, order, heads, before, key, log[key]);
      var slot := Slot(heads, key.layer, key.head);
      assert SlotKept(heads, before, after, layer, Mul(c.TotalBytes(), n), slot);
      if key.layer == layer {
        LaterEntry(before[slot], after[slot], c.TotalBytes(), n, key.pos);
      } else {
        OtherLayer(heads, key.layer, key.head, layer);
      }
    }
  }

  lemma LaterEntry(before: seq<byte>, after: seq<byte>, size: nat, n: nat, pos: nat)
    requires |before| == |after| >= Mul(size, pos + 1) && n <= pos
    requires 0 <= Mul(size, n) <= |after| ==> after[Mul(size, n)..] == before[Mul(size, n)..]
    ensures Entry(after, size, pos) == Entry(before, size, pos)
  {
    EntryBounds(size, pos);
    EntryBounds(size, n);
    MulOrder(n, pos, size);
    var from, a, b := Mul(size, n), Mul(size, pos), Mul(size, pos + 1);
    hide Mul;
    forall k | a <= k < b
      ensures after[k] == before[k]
    {
      assert after[k] == after[from..][k - from] == before[from..][k - from];
    }
  }

  lemma OtherLayer(heads: nat, layer: nat, head: nat, other: nat)
    requires head < heads && layer != other
    ensures !(Mul(heads, other) <= Slot(heads, layer, head) < Mul(heads, other) + heads)
  {
    EntryBounds(heads, other);
    EntryBounds(heads, layer);
    if layer < other {
      MulOrder(layer + 1, other, heads);
    } else {
      MulOrder(other + 1, layer, heads);
    }
  }

  // ---------------------------------------------------------------- saving and loading

  /** Save a layer's keys: nothing without positions to save. */
  method SaveK(cache: ShadowCache, layer: nat, nPos: int, hash: nat) returns (file: LayerFile)
    requires cache.Valid() && layer < cache.nLayers && SavedPositions(nPos, cache.seqLen[layer]) <= cache.capacity
    ensures file.Skipped? <==> nPos <= 0 && cache.seqLen[layer] <= 0
    ensures file.Saved? && cache.kBands.Bands() <= 7 ==>
              IsBandMajorFile(file.bytes, cache.kBands, LayerBuffers(Buffers(cache.kCache), cache.nHeadsKv, cache.nLayers, layer),
                              SavedPositions(nPos, cache.seqLen[layer]), 0, hash)
    ensures file.Saved? && cache.kBands.Bands() > 7 ==>
              IsLegacyFile(file.bytes, cache.kBands, LayerBuffers(Buffers(cache.kCache), cache.nHeadsKv, cache.nLayers, layer),
                           SavedPositions(nPos, cache.seqLen[layer]), 0, hash)
  {
    hide IsBandMajorFile, IsLegacyFile, Mul, BandConfig.RecordOffset, ShadowCache.HoldsK, ShadowCache.HoldsV, ShadowCache.OrderValid,
      AllDistinct, ValidKernels, Slot;
    var n := SavedPositions(nPos, cache.seqLen[layer]);
    MulOrder(n, cache.capacity, cache.kBands.TotalBytes());
    var slots := LayerSlots(cache.kCache, cache.nHeadsKv, cache.nLayers, layer);
    assert Buffers(slots) == LayerBuffers(Buffers(cache.kCache), cache.nHeadsKv, cache.nLayers, layer);
    file := SaveLayer(cache.kBands, slots, nPos, cache.seqLen[layer], 0, hash);
  }

  /** A cache that no load has touched is saved only with a position count: its writes are not counted. */
  method RunThenSave(cache: ShadowCache, ops: seq<Op>, out: array<real>, layer: nat, nPos: int, hash: nat) returns (file: LayerFile)
    requires cache.Valid() && layer < cache.nLayers && cache.seqLen[layer] == 0 && SavedPositions(nPos, 0) <= cache.capacity
    requires forall i :: 0 <= i < |ops| ==> OpFits(cache, ops[i])
    requires out.Length == cache.headDim && out !in {cache.vht2Scratch, cache.mobiusScratch, cache.readScratch}
    modifies cache, cache.vht2Scratch, cache.mobiusScratch, cache.readScratch, cache.kCache, cache.vCache, out
    ensures cache.Valid()
    ensures file.Skipped? <==> nPos <= 0
  {
    hide ShadowCache.Valid, ShadowCache.WithinBudget, IsBandMajorFile, IsLegacyFile;
    for i := 0 to |ops|
      invariant cache.Valid() && cache.seqLen == old(cache.seqLen)
    {
      Step(cache, ops[i], out);
    }
    file := SaveK(cache, layer, nPos, hash);
  }

  function Max0(n: int): nat {
    if n > 0 then n else 0
  }

  /** Load one layer of a cache's storage. */
  method LoadSlots(c: BandConfig, caches: seq<array<byte>>, heads: nat, layers: nat, layer: nat, capacity: nat,
                   file: seq<byte>, expected: nat, warnOnly: bool, maxBands: int, ghost saved: seq<seq<byte>>) returns (rc: int)
    requires c.Valid() && layer < layers && |caches| == Mul(heads, layers) && |saved| == heads && AllDistinct(caches)
    requires forall i :: 0 <= i < |caches| ==> caches[i].Length == Mul(c.TotalBytes(), capacity)
    requires CanLoad(c, heads, capacity, file, expected, warnOnly)
    modifies caches
    ensures Matches(c, heads, file, expected, warnOnly) ==> rc == DiskPositions(file)
    ensures OnlyLayer(heads, old(Buffers(caches)), Buffers(caches), layer, Mul(c.TotalBytes(), Max0(rc)))
    ensures LoadsSaved(c, file, expected, warnOnly, saved, maxBands, LayerBuffers(Buffers(caches), heads, layers, layer), rc)
  {
    hide Mul, BandConfig.RecordOffset, Loaded, Readable, TailKept, Judge, Slot, RunHolds;
    var slots := LayerSlots(caches, heads, layers, layer);
    ghost var before, old0 := Buffers(caches), Buffers(slots);
    SlotsDistinct(caches, heads, layers, layer);
    if |file| >= HEADER && DiskPositions(file) <= capacity {
      MulOrder(DiskPositions(file), capacity, c.TotalBytes());
    }
    rc := LoadLayer(c, slots, file, expected, warnOnly, maxBands, saved);
    assert Buffers(slots) == LayerBuffers(Buffers(caches), heads, layers, layer);
    assert old0 == LayerBuffers(before, heads, layers, layer);
    forall i | 0 <= i < |caches| && !(Mul(heads, layer) <= i < Mul(heads, layer) + heads)
      ensures caches[i][..] == before[i]
    {
      assert caches[i] !in slots;
    }
    LayerChanged(heads, layers, layer, before, Buffers(caches), Mul(c.TotalBytes(), Max0(rc)), rc > 0);
  }

  lemma SlotsDistinct(caches: seq<array<byte>>, heads: nat, layers: nat, layer: nat)
    requires layer < layers && |caches| == Mul(heads, layers) && AllDistinct(caches)
    ensures AllDistinct(LayerSlots(caches, heads, layers, layer))
    ensures 0 <= Mul(heads, layer)
    ensures forall i :: 0 <= i < |caches| && !(Mul(heads, layer) <= i < Mul(heads, layer) + heads) ==>
              caches[i] !in LayerSlots(caches, heads, layers, layer)
  {
    hide Mul;
    EntryBounds(heads, layer);
    LayerBounds(heads, layers, layer);
    var lo := Mul(heads, layer);
    var slots := LayerSlots(caches, heads, layers, layer);
    assert slots == caches[lo..lo + heads];
    forall i, j | 0 <= i < |caches| && !(lo <= i < lo + heads) && 0 <= j < heads
      ensures caches[i] != slots[j]
    {
      assert slots[j] == caches[lo + j];
    }
    forall i, k | 0 <= i < k < heads
      ensures slots[i] != slots[k]
    {
      assert slots[i] == caches[lo + i] && slots[k] == caches[lo + k];
    }
  }

  lemma LayerChanged(heads: nat, layers: nat, layer: nat, before: seq<seq<byte>>, after: seq<seq<byte>>, from: int, loaded: bool)
    requires layer < layers && |before| == |after| == Mul(heads, layers)
    requires forall i :: 0 <= i < |after| && !(Mul(heads, layer) <= i < Mul(heads, layer) + heads) ==> after[i] == before[i]
    requires loaded ==> TailKept(LayerBuffers(before, heads, layers, layer), LayerBuffers(after, heads, layers, layer), from)
    requires !loaded ==> LayerBuffers(before, heads, layers, layer) == LayerBuffers(after, heads, layers, layer)
    ensures OnlyLayer(heads, before, after, layer, from)
  {
    hide Mul;
    LayerBounds(heads, layers, layer);
    var lo := Mul(heads, layer);
    var b, a := LayerBuffers(before, heads, layers, layer), LayerBuffers(after, heads, layers, layer);
    assert b == before[lo..lo + heads] && a == after[lo..lo + heads];
    forall slot | 0 <= slot < |after|
      ensures SlotKept(heads, before, after, layer, from, slot)
    {
      if lo <= slot < lo + heads {
        assert before[slot] == b[slot - lo] && after[slot] == a[slot - lo];
      }
    }
  }

  /** What a matching file must fit into. */
  ghost predicate CanLoad(c: BandConfig, heads: nat, capacity: nat, file: seq<byte>, expected: nat, warnOnly: bool) {
    Matches(c, heads, file, expected, warnOnly) ==>
      DiskPositions(file) <= capacity && (Judge(file, expected, warnOnly) == BandMajor ==> c.Bands() <= 7)
  }

  /** A readable file leaves the first bands of the saved entries. */
  ghost predicate LoadsSaved(c: BandConfig, file: seq<byte>, expected: nat, warnOnly: bool, saved: seq<seq<byte>>, maxBands: int,
                             after: seq<seq<byte>>, rc: int)
    requires c.Valid()
  {
    rc > 0 && Judge(file, expected, warnOnly).BandMajor? && c.Bands() <= 7
    && Readable(c, file, saved, rc, Clamp(maxBands, 0, c.Bands()))
    && (forall i :: 0 <= i < |saved| ==> Mul(c.TotalBytes(), rc) <= |saved[i]|) ==>
      Loaded(c, saved, after, rc, Clamp(maxBands, 0, c.Bands()))
  }

  /** Load a layer's keys. The log forgets the positions loaded, the recorded length becomes theirs. */
  method LoadK(cache: ShadowCache, layer: nat, file: seq<byte>, expected: nat, warnOnly: bool, maxBands: int, ghost saved: seq<seq<byte>>)
      returns (rc: int)
    requires cache.Valid() && layer < cache.nLayers && |saved| == cache.nHeadsKv
    requires CanLoad(cache.kBands, cache.nHeadsKv, cache.capacity, file, expected, warnOnly)
    modifies cache.kCache, cache`kLog, cache`seqLen
    ensures cache.Valid() && cache.Order() == old(cache.Order()) && cache.vLog == old(cache.vLog)
    ensures Matches(cache.kBands, cache.nHeadsKv, file, expected, warnOnly) ==> rc == DiskPositions(file)
    ensures cache.kLog == Forget(old(cache.kLog), layer, Max0(rc))
    ensures cache.seqLen == if rc > 0 then old(cache.seqLen)[layer := rc] else old(cache.seqLen)
    ensures LoadsSaved(cache.kBands, file, expected, warnOnly, saved, maxBands,
                       LayerBuffers(Buffers(cache.kCache), cache.nHeadsKv, cache.nLayers, layer), rc)
  {
    hide ShadowCache.Valid, ShadowCache.Shape, ShadowCache.OrderValid, ShadowCache.HoldsV, ShadowCache.Order;
    hide Mul, BandConfig.RecordOffset, Holds, LoadsSaved, CanLoad, Matches, OnlyLayer, Forget, Buffers;
    ghost var before, log, order := Buffers(cache.kCache), cache.kLog, cache.Order();
    ValidParts(cache);
    rc := LoadBuffers(cache, layer, file, expected, warnOnly, maxBands, saved);
    HoldsAfterLoad(cache.kBands, cache.kernels, order, cache.nHeadsKv, before, Buffers(cache.kCache), log, layer, Max0(rc));
    cache.kLog := Forget(log, layer, Max0(rc));
    if rc > 0 {
      cache.seqLen := cache.seqLen[layer := rc];
    }
    PartsValid(cache);
  }

  lemma ValidParts(cache: ShadowCache)
    requires cache.Valid()
    ensures cache.kBands.Valid() && |cache.seqLen| == cache.nLayers && |cache.kCache| == Mul(cache.nHeadsKv, cache.nLayers)
    ensures Holds(cache.kBands, cache.kernels, cache.Order(), cache.nHeadsKv, Buffers(cache.kCache), cache.kLog)
  {
    hide Holds;
  }

  lemma PartsValid(cache: ShadowCache)
    requires cache.Shape() && cache.OrderValid() && cache.HoldsV() && |cache.seqLen| == cache.nLayers
    requires Holds(cache.kBands, cache.kernels, cache.Order(), cache.nHeadsKv, Buffers(cache.kCache), cache.kLog)
    ensures cache.Valid()
  {
    hide Holds;
  }

  /** The same on the storage alone. */
  method LoadBuffers(cache: ShadowCache, layer: nat, file: seq<byte>, expected: nat, warnOnly: bool, maxBands: int,
                     ghost saved: seq<seq<byte>>) returns (rc: int)
    requires cache.Valid() && layer < cache.nLayers && |saved| == cache.nHeadsKv
    requires CanLoad(cache.kBands, cache.nHeadsKv, cache.capacity, file, expected, warnOnly)
    modifies cache.kCache
    ensures cache.Shape() && cache.OrderValid() && cache.HoldsV() && cache.Order() == old(cache.Order())
    ensures Matches(cache.kBands, cache.nHeadsKv, file, expected, warnOnly) ==> rc == DiskPositions(file)
    ensures OnlyLayer(cache.nHeadsKv, old(Buffers(cache.kCache)), Buffers(cache.kCache), layer, Mul(cache.kBands.TotalBytes(), Max0(rc)))
    ensures LoadsSaved(cache.kBands, file, expected, warnOnly, saved, maxBands,
                       LayerBuffers(Buffers(cache.kCache), cache.nHeadsKv, cache.nLayers, layer), rc)
  {
    hide Mul, BandConfig.RecordOffset, AllDistinct, ValidKernels, ShadowCache.Order, ShadowCache.OrderValid, ShadowCache.HoldsV,
      ShadowCache.HoldsK, LoadsSaved, Matches, CanLoad, OnlyLayer;
    DistinctParts(cache.kCache, cache.vCache);
    rc := LoadSlots(cache.kBands, cache.kCache, cache.nHeadsKv, cache.nLayers, layer, cache.capacity, file, expected, warnOnly, maxBands, saved);
  }

  // ---------------------------------------------------------------- reading after a load

  /** A cache and one it was saved from lay out and order keys alike. */
  ghost predicate SameLayout(a: ShadowCache, b: ShadowCache)
    reads a, a.varOrder, a.mask, if a.mask != null then {a.mask.order} else {}
    reads b, b.varOrder, b.mask, if b.mask != null then {b.mask.order} else {}
  {
    && a.kBands == b.kBands && a.headDim == b.headDim && a.nHeadsKv == b.nHeadsKv
    && a.kernels == b.kernels && a.root == b.root && a.Order() == b.Order()
  }

  /** A saved file of a layer, small enough for its header. */
  ghost predicate IsLayerFile(file: seq<byte>, c: BandConfig, saved: seq<seq<byte>>, nPos: nat, hash: nat) {
    && c.Valid() && c.Bands() <= 7 && IsBandMajorFile(file, c, saved, nPos, 0, hash) && OffsetsFit(c, nPos, |saved|, c.Bands())
    && 0 < nPos < 0x8000_0000 && c.TotalBytes() < 0x8000_0000 && |saved| < 0x8000_0000 && hash < WORD * WORD
    && forall i :: 0 <= i < |saved| ==> Mul(c.TotalBytes(), nPos) <= |saved[i]|
  }

  /** Loading a saved layer leaves the first bands of its entries, and clears the rest. */
  method LoadSavedLayer(cache: ShadowCache, layer: nat, file: seq<byte>, hash: nat, maxBands: int,
                        ghost saved: seq<seq<byte>>, ghost nPos: nat) returns (rc: int)
    requires cache.Valid() && layer < cache.nLayers && |saved| == cache.nHeadsKv && nPos <= cache.capacity
    requires IsLayerFile(file, cache.kBands, saved, nPos, hash)
    modifies cache.kCache, cache`kLog, cache`seqLen
    ensures cache.Valid() && cache.Order() == old(cache.Order()) && rc == nPos && cache.kBands.Bands() <= 7
    ensures Loaded(cache.kBands, saved, LayerBuffers(Buffers(cache.kCache), cache.nHeadsKv, cache.nLayers, layer), nPos,
                   Clamp(maxBands, 0, cache.kBands.Bands()))
  {
    hide Mul, BandConfig.RecordOffset, AllDistinct, Loaded, Readable, IsBandMajorFile, ShadowCache.Valid, ShadowCache.Order, Judge,
      DiskStride, DiskHeads, DiskBands, DiskPositions;
    var c := cache.kBands;
    ghost var m: nat := Clamp(maxBands, 0, c.Bands());
    HeaderJudged(file, c, saved, nPos, 0, hash);
    FewerBands(c, nPos, |saved|, m);
    OffsetsExact(c, file, saved, nPos, 0, hash, m);
    rc := LoadK(cache, layer, file, hash, false, maxBands, saved);
  }

  /** The entry of a key in the layer's buffers. */
  lemma EntryInLayer(cache: ShadowCache, layer: nat, head: nat, pos: nat)
    requires cache.Shape() && cache.InRange(Key(layer, head, pos))
    ensures var bufs := LayerBuffers(Buffers(cache.kCache), cache.nHeadsKv, cache.nLayers, layer);
            && Mul(cache.kBands.TotalBytes(), pos + 1) <= |bufs[head]|
            && cache.EntryOf(cache.kBands, cache.kCache, Key(layer, head, pos)) == Entry(bufs[head], cache.kBands.TotalBytes(), pos)
  {
    hide Mul, AllDistinct, ValidKernels, Slot, Entry, BandConfig.RecordOffset;
    MulOrder(pos + 1, cache.capacity, cache.kBands.TotalBytes());
  }

  /** The vector x is encoded in entry pos of a head's saved buffer. */
  ghost predicate IsSavedAs(c: BandConfig, h: Kernels, order: seq<int>, buffer: seq<byte>, pos: nat, x: seq<real>) {
    && c.Valid() && |order| == |x| == c.headDim > 0 && Mul(c.TotalBytes(), pos + 1) <= |buffer|
    && IsEncoding(c, Entry(buffer, c.TotalBytes(), pos), Stored(h, order, x))
  }

  /** What a read of m bands of a saved entry returns. */
  ghost predicate IsSavedRead(c: BandConfig, h: Kernels, order: seq<int>, buffer: seq<byte>, pos: nat, m: nat, out: seq<real>) {
    && c.Valid() && m <= c.Bands() && IsPermutation(order) && |order| == c.headDim > 0 && Mul(c.TotalBytes(), pos + 1) <= |buffer|
    && Covers(c, Entry(buffer, c.TotalBytes(), pos), m)
    && out == Restored(h, order, Decode(c, Entry(buffer, c.TotalBytes(), pos), m))
  }

  /** Load m bands of a saved layer and read a key in full, or load it in full and read m bands: either way
      the saved entry is read as far as m bands. */
  method LoadAndRead(cache: ShadowCache, layer: nat, file: seq<byte>, hash: nat, m: nat, partialLoad: bool, head: nat, pos: nat,
                     kOut: array<real>, ghost saved: seq<seq<byte>>, ghost nPos: nat)
    requires cache.Valid() && layer < cache.nLayers && |saved| == cache.nHeadsKv && nPos <= cache.capacity
    requires IsLayerFile(file, cache.kBands, saved, nPos, hash) && m <= cache.kBands.Bands() && head < cache.nHeadsKv && pos < nPos
    requires kOut.Length == cache.headDim && kOut !in {cache.vht2Scratch, cache.mobiusScratch, cache.readScratch}
    modifies cache.kCache, cache`kLog, cache`seqLen, cache.readScratch, cache.mobiusScratch, kOut
    ensures cache.Valid() && cache.Order() == old(cache.Order())
    ensures IsSavedRead(cache.kBands, cache.kernels, cache.Order(), saved[head], pos, m, kOut[..])
  {
    hide Mul, BandConfig.RecordOffset, Loaded, IsLayerFile, ShadowCache.Order, ShadowCache.IsRead, IsPermutation, ShadowCache.WithinBudget,
      ShadowCache.Valid, IsSavedRead;
    var rc := LoadSavedLayer(cache, layer, file, hash, if partialLoad then m else 0x7FFF_FFFF, saved, nPos);
    cache.ReadKPartial(layer, head, pos, kOut, if partialLoad then -1 else m);
    ReadOfLoaded(cache, layer, head, pos, m, partialLoad, kOut[..], saved, nPos);
  }

  lemma ReadOfLoaded(cache: ShadowCache, layer: nat, head: nat, pos: nat, m: nat, partialLoad: bool, out: seq<real>,
                     saved: seq<seq<byte>>, nPos: nat)
    requires cache.Valid() && cache.InRange(Key(layer, head, pos)) && |saved| == cache.nHeadsKv && pos < nPos
    requires m <= cache.kBands.Bands() <= 7 && IsPermutation(cache.Order()) && |cache.Order()| == cache.headDim
    requires Loaded(cache.kBands, saved, LayerBuffers(Buffers(cache.kCache), cache.nHeadsKv, cache.nLayers, layer), nPos,
                    if partialLoad then m else cache.kBands.Bands())
    requires cache.IsRead(cache.kBands, cache.Order(), cache.EntryOf(cache.kBands, cache.kCache, Key(layer, head, pos)),
                          if partialLoad then -1 else m, out)
    ensures IsSavedRead(cache.kBands, cache.kernels, cache.Order(), saved[head], pos, m, out)
  {
    hide Mul, BandConfig.RecordOffset, Loaded, ShadowCache.Order, ShadowCache.OrderValid, ShadowCache.HoldsK, ShadowCache.HoldsV,
      IsPermutation, Decode, Restored, Entry, AllDistinct, ValidKernels, EntryLoaded;
    var c := cache.kBands;
    EntryInLayer(cache, layer, head, pos);
    var bufs := LayerBuffers(Buffers(cache.kCache), cache.nHeadsKv, cache.nLayers, layer);
    LoadedEntries(c, saved, bufs, nPos, if partialLoad then m else c.Bands(), head, pos);
    var e, loaded := Entry(saved[head], c.TotalBytes(), pos), Entry(bufs[head], c.TotalBytes(), pos);
    if partialLoad {
      PathsAgree(c, e, loaded, m);
    } else {
      FullLoad(c, e, loaded);
      RecordsOrdered(c, m, c.Bands());
    }
  }

  lemma SavedReadIsClose(c: BandConfig, h: Kernels, s: real, order: seq<int>, buffer: seq<byte>, pos: nat, x: seq<real>, m: nat, out: seq<real>)
    requires ValidKernels(h, s) && IsSavedAs(c, h, order, buffer, pos, x) && IsSavedRead(c, h, order, buffer, pos, m, out)
    ensures |out| == |x| && SquaredError(out, x) <= Budget(c, Stored(h, order, x), m, c.Bands())
  {
    hide Mul, ValidKernels, IsPermutation, Decode, Restored, Stored, SquaredError, Budget, IsEncoding, Entry, BandConfig.RecordOffset;
    ReadBackError(h, s, c, order, Entry(buffer, c.TotalBytes(), pos), x, m);
  }

  /** Write in one cache, save the layer, load m bands of it into another, read: the result is within the
      budget of the vector written; and it is what a full load and a read of m bands give. */
  method SaveLoadRead(src: ShadowCache, dst: ShadowCache, layer: nat, nPos: nat, hash: nat, m: nat, head: nat, pos: nat,
                      first: array<real>, second: array<real>)
    requires src.Valid() && dst.Valid() && SameLayout(src, dst) && layer < src.nLayers && layer < dst.nLayers
    requires head < src.nHeadsKv && pos < nPos <= src.capacity && nPos <= dst.capacity && Key(layer, head, pos) in src.kLog
    requires m <= src.kBands.Bands() <= 7 && OffsetsFit(src.kBands, nPos, src.nHeadsKv, src.kBands.Bands())
    requires nPos < 0x8000_0000 && src.kBands.TotalBytes() < 0x8000_0000 && src.nHeadsKv < 0x8000_0000 && hash < WORD * WORD
    requires first != second && first.Length == second.Length == dst.headDim
    requires {first, second} !! {dst.vht2Scratch, dst.mobiusScratch, dst.readScratch}
    modifies dst.kCache, dst`kLog, dst`seqLen, dst.readScratch, dst.mobiusScratch, first, second
    ensures dst.Valid()
    ensures dst.WithinBudget(dst.kBands, dst.Order(), old(src.kLog)[Key(layer, head, pos)], m, first[..])
    ensures first[..] == second[..]
  {
    hide Mul, BandConfig.RecordOffset, IsBandMajorFile, ShadowCache.Order, IsSavedRead, IsSavedAs, OffsetsFit, IsLayerFile,
      ShadowCache.Valid, ShadowCache.WithinBudget, ValidKernels, Slot;
    ghost var order, x := src.Order(), src.kLog[Key(layer, head, pos)];
    SavedVector(src, layer, head, pos, nPos);
    ghost var saved := LayerBuffers(Buffers(src.kCache), src.nHeadsKv, src.nLayers, layer);
    var file := SaveLayerFile(src, layer, nPos, hash);
    LoadTwice(dst, layer, file, hash, m, head, pos, first, second, saved, nPos);
    ReadsEqual(src.kBands, src.kernels, order, saved[head], pos, m, first[..], second[..]);
    SavedReadIsClose(src.kBands, src.kernels, src.root, order, saved[head], pos, x, m, first[..]);
    BudgetHolds(dst, order, x, m, first[..], saved[head], pos);
  }

  /** A layer saved band by band is a layer file. */
  method SaveLayerFile(src: ShadowCache, layer: nat, nPos: nat, hash: nat) returns (file: seq<byte>)
    requires src.Valid() && layer < src.nLayers && 0 < nPos <= src.capacity && src.kBands.Bands() <= 7
    requires OffsetsFit(src.kBands, nPos, src.nHeadsKv, src.kBands.Bands())
    requires nPos < 0x8000_0000 && src.kBands.TotalBytes() < 0x8000_0000 && src.nHeadsKv < 0x8000_0000 && hash < WORD * WORD
    ensures IsLayerFile(file, src.kBands, LayerBuffers(Buffers(src.kCache), src.nHeadsKv, src.nLayers, layer), nPos, hash)
  {
    hide Mul, BandConfig.RecordOffset, IsBandMajorFile, ShadowCache.Order, OffsetsFit, ShadowCache.OrderValid, ShadowCache.HoldsK,
      ShadowCache.HoldsV, ValidKernels, AllDistinct, Slot;
    MulOrder(nPos, src.capacity, src.kBands.TotalBytes());
    var saved := SaveK(src, layer, nPos, hash);
    file := saved.bytes;
  }

  /** Load in part and read in full, then load in full and read in part. */
  method LoadTwice(dst: ShadowCache, layer: nat, file: seq<byte>, hash: nat, m: nat, head: nat, pos: nat,
                   first: array<real>, second: array<real>, ghost saved: seq<seq<byte>>, ghost nPos: nat)
    requires dst.Valid() && layer < dst.nLayers && |saved| == dst.nHeadsKv && nPos <= dst.capacity
    requires IsLayerFile(file, dst.kBands, saved, nPos, hash) && m <= dst.kBands.Bands() && head < dst.nHeadsKv && pos < nPos
    requires first != second && first.Length == second.Length == dst.headDim
    requires {first, second} !! {dst.vht2Scratch, dst.mobiusScratch, dst.readScratch}
    modifies dst.kCache, dst`kLog, dst`seqLen, dst.readScratch, dst.mobiusScratch, first, second
    ensures dst.Valid() && dst.Order() == old(dst.Order())
    ensures IsSavedRead(dst.kBands, dst.kernels, dst.Order(), saved[head], pos, m, first[..])
    ensures IsSavedRead(dst.kBands, dst.kernels, dst.Order(), saved[head], pos, m, second[..])
  {
    hide ShadowCache.Valid, ShadowCache.Order, IsSavedRead, IsLayerFile;
    LoadAndRead(dst, layer, file, hash, m, true, head, pos, first, saved, nPos);
    ghost var read := first[..];
    LoadAndRead(dst, layer, file, hash, m, false, head, pos, second, saved, nPos);
    assert first[..] == read;
  }

  /** A logged key of a layer is saved as its vector, and every buffer reaches the positions saved. */
  lemma SavedVector(cache: ShadowCache, layer: nat, head: nat, pos: nat, nPos: nat)
    requires cache.Valid() && layer < cache.nLayers && head < cache.nHeadsKv && pos < nPos <= cache.capacity
    requires Key(layer, head, pos) in cache.kLog
    ensures |Buffers(cache.kCache)| == Mul(cache.nHeadsKv, cache.nLayers)
    ensures var saved := LayerBuffers(Buffers(cache.kCache), cache.nHeadsKv, cache.nLayers, layer);
            && IsSavedAs(cache.kBands, cache.kernels, cache.Order(), saved[head], pos, cache.kLog[Key(layer, head, pos)])
            && (forall i :: 0 <= i < |saved| ==> Mul(cache.kBands.TotalBytes(), nPos) <= |saved[i]|)
    ensures ValidKernels(cache.kernels, cache.root)
  {
    hide Mul, AllDistinct, ValidKernels, Slot, Entry, BandConfig.RecordOffset, Stored, IsEncoding, ShadowCache.Order, ShadowCache.HoldsV;
    var key := Key(layer, head, pos);
    cache.OrderIsPermutation();
    MulOrder(nPos, cache.capacity, cache.kBands.TotalBytes());
    assert HoldsKey(cache.kBands, cache.kernels, cache.Order(), cache.nHeadsKv, Buffers(cache.kCache), key, cache.kLog[key]);
  }

  lemma ReadsEqual(c: BandConfig, h: Kernels, order: seq<int>, buffer: seq<byte>, pos: nat, m: nat, a: seq<real>, b: seq<real>)
    requires IsSavedRead(c, h, order, buffer, pos, m, a) && IsSavedRead(c, h, order, buffer, pos, m, b)
    ensures a == b
  {
  }

  lemma BudgetHolds(cache: ShadowCache, order: seq<int>, x: seq<real>, m: nat, out: seq<real>, buffer: seq<byte>, pos: nat)
    requires m <= cache.kBands.Bands() && |out| == |x|
    requires IsSavedAs(cache.kBands, cache.kernels, order, buffer, pos, x)
    requires SquaredError(out, x) <= Budget(cache.kBands, Stored(cache.kernels, order, x), m, cache.kBands.Bands())
    ensures cache.WithinBudget(cache.kBands, order, x, m, out)
  {
    hide SquaredError, Budget, IsEncoding, Entry;
  }
}
