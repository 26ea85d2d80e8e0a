/** The compressed key/value cache (core/src/shannon_prime.c, `sp_shadow_write_k`, `sp_shadow_write_v`,
    `sp_shadow_read_k_impl`, `sp_shadow_read_v_impl`, `sp_shadow_calibrate_end`). The ghost logs are the
    map the cache stands for: the last vector written under each key. */
module ShadowCaches {
  import opened BandCodec
  import opened BandRecords
  import opened BitPack
  import opened Compression
  import opened IntArith
  import opened Matrices
  import opened MobiusMasks
  import opened Permutations
  import opened RankSort
  import opened Vht2
  import opened Vht2Theory

  /** Where a vector is kept: layer, head and position. */
  datatype Key = Key(layer: nat, head: nat, pos: nat)

  type Log = map<Key, seq<real>>

  /** `layer * n_heads_kv + head`. */
  function Slot(heads: nat, layer: nat, head: nat): (slot: nat)
    ensures slot == Mul(heads, layer) + head
  {
    MulOrder(0, layer, heads);
    Mul(heads, layer) + head
  }

  /** Different layers and heads have different slots. */
  lemma SlotInjective(heads: nat, layer: nat, head: nat, layer': nat, head': nat)
    requires head < heads && head' < heads && (layer, head) != (layer', head')
    ensures Slot(heads, layer, head) != Slot(heads, layer', head')
  {
    if layer != layer' {
      var lo, hi := if layer < layer' then layer else layer', if layer < layer' then layer' else layer;
      MulOrder(lo + 1, hi, heads);
      MulDistributes(heads, lo, 1);
      MulOne(heads);
    }
  }

  lemma SlotInRange(heads: nat, layers: nat, layer: nat, head: nat)
    requires head < heads && layer < layers
    ensures Slot(heads, layer, head) < Mul(heads, layers)
  {
    MulOrder(layer + 1, layers, heads);
    MulDistributes(heads, layer, 1);
    MulOne(heads);
  }

  /** The bytes of position pos in a slot's buffer. */
  ghost function Entry(buffer: seq<byte>, size: nat, pos: nat): (e: seq<byte>)
    requires Mul(size, pos + 1) <= |buffer|
    ensures |e| == size
  {
    EntryBounds(size, pos);
    buffer[Mul(size, pos)..Mul(size, pos + 1)]
  }

  lemma EntryBounds(size: nat, pos: nat)
    ensures 0 <= Mul(size, pos) && Mul(size, pos + 1) == Mul(size, pos) + size
  {
    MulOrder(0, pos, size);
    MulDistributes(size, pos, 1);
    MulOne(size);
  }

  /** Writing one entry leaves the others. */
  lemma OtherEntry(before: seq<byte>, after: seq<byte>, size: nat, pos: nat, other: nat)
    requires |before| == |after| && Mul(size, pos + 1) <= |before| && Mul(size, other + 1) <= |before| && pos != other
    requires forall k :: 0 <= k < |after| && !(Mul(size, pos) <= k < Mul(size, pos + 1)) ==> after[k] == before[k]
    ensures Entry(after, size, other) == Entry(before, size, other)
  {
    EntryBounds(size, pos);
    EntryBounds(size, other);
    if pos < other {
      MulOrder(pos + 1, other, size);
    } else {
      MulOrder(other + 1, pos, size);
    }
  }

  /** Every logged vector is encoded in the bytes of its entry. */
  ghost predicate Holds(c: BandConfig, h: Kernels, order: seq<int>, heads: nat, buffers: seq<seq<byte>>, log: Log)
    requires c.Valid()
  {
    forall key :: key in log ==> HoldsKey(c, h, order, heads, buffers, key, log[key])
  }

  ghost predicate HoldsKey(c: BandConfig, h: Kernels, order: seq<int>, heads: nat, buffers: seq<seq<byte>>, key: Key, x: seq<real>)
    requires c.Valid()
  {
    && key.head < heads && Slot(heads, key.layer, key.head) < |buffers|
    && |x| == |order| > 0
    && Mul(c.TotalBytes(), key.pos + 1) <= |buffers[Slot(heads, key.layer, key.head)]|
    && IsEncoding(c, Entry(buffers[Slot(heads, key.layer, key.head)], c.TotalBytes(), key.pos), Stored(h, order, x))
  }

  /** One entry is rewritten: the log changes at that key only. */
  lemma HoldsAfterWrite(c: BandConfig, h: Kernels, order: seq<int>, heads: nat, before: seq<seq<byte>>, after: seq<byte>,
                        log: Log, key: Key, x: seq<real>)
    requires c.Valid() && Holds(c, h, order, heads, before, log)
    requires key.head < heads && Slot(heads, key.layer, key.head) < |before|
    requires var slot := Slot(heads, key.layer, key.head);
             && |after| == |before[slot]| && Mul(c.TotalBytes(), key.pos + 1) <= |after|
             && (forall k :: 0 <= k < |after| && !(Mul(c.TotalBytes(), key.pos) <= k < Mul(c.TotalBytes(), key.pos + 1))
                   ==> after[k] == before[slot][k])
    requires |x| == |order| > 0 && IsEncoding(c, Entry(after, c.TotalBytes(), key.pos), Stored(h, order, x))
    ensures Holds(c, h, order, heads, before[Slot(heads, key.layer, key.head) := after], log[key := x])
  {
    hide IsEncoding, Stored, Mul, BandConfig.RecordOffset, Slot, Entry;
    var slot := Slot(heads, key.layer, key.head);
    var buffers, log' := before[slot := after], log[key := x];
    forall other | other in log'
      ensures HoldsKey(c, h, order, heads, buffers, other, log'[other])
    {
      if other != key {
        assert HoldsKey(c, h, order, heads, before, other, log[other]);
        if (other.layer, other.head) == (key.layer, key.head) {
          OtherEntry(before[slot], after, c.TotalBytes(), key.pos, other.pos);
        } else {
          SlotInjective(heads, other.layer, other.head, key.layer, key.head);
        }
      }
    }
  }

  ghost function Buffers(caches: seq<array<byte>>): (b: seq<seq<byte>>)
    reads caches
    ensures |b| == |caches| && forall i :: 0 <= i < |b| ==> b[i] == caches[i][..]
  {
    seq(|caches|, i requires 0 <= i < |caches| reads caches => caches[i][..])
  }

  ghost predicate AllDistinct(caches: seq<array<byte>>) {
    forall i, k :: 0 <= i < k < |caches| ==> caches[i] != caches[k]
  }

  lemma DistinctParts(a: seq<array<byte>>, b: seq<array<byte>>)
    requires AllDistinct(a + b)
    ensures AllDistinct(a) && AllDistinct(b)
    ensures forall i :: 0 <= i < |a| ==> a[i] !in b
    ensures forall k :: 0 <= k < |b| ==> b[k] in b && b[k] !in a
  {
    var both := a + b;
    assert forall i :: 0 <= i < |a| ==> both[i] == a[i];
    assert forall k :: 0 <= k < |b| ==> both[|a| + k] == b[k];
    forall i, k | 0 <= i < |a| && 0 <= k < |b|
      ensures a[i] != b[k]
    {
      assert both[i] != both[|a| + k];
    }
    forall i, k | 0 <= i < k < |b|
      ensures b[i] != b[k]
    {
      assert both[|a| + i] != both[|a| + k];
    }
  }

  /** Bands a read with the given bound decodes: a negative bound, or one past the end, means all. */
  function BandsRead(c: BandConfig, maxBands: int): (m: nat)
    ensures m <= c.Bands()
  {
    if maxBands < 0 || maxBands >= c.Bands() then c.Bands() else maxBands
  }

  class ShadowCache {
    const nLayers: nat
    const nHeadsKv: nat
    const headDim: nat
    const capacity: nat
    const kBands: BandConfig
    const vBands: BandConfig
    const kernels: Kernels
    const root: real
    const mask: MobiusMask?
    const vht2Scratch: array<real>
    const mobiusScratch: array<real>
    const readScratch: array<real>
    const kCache: seq<array<byte>>
    const vCache: seq<array<byte>>
    var useVarReorder: bool
    var varOrder: array<int>
    /** Positions of each layer, as the last load found them; writes do not touch it. */
    var seqLen: seq<int>
    ghost var kLog: Log
    ghost var vLog: Log

    /** What never changes. */
    ghost predicate Shape() {
      && headDim > 0 && kBands.Valid() && vBands.Valid() && kBands.headDim == vBands.headDim == headDim
      && ValidKernels(kernels, root)
      && vht2Scratch.Length == mobiusScratch.Length == readScratch.Length == headDim
      && vht2Scratch != mobiusScratch && mobiusScratch != readScratch && vht2Scratch != readScratch
      && |kCache| == |vCache| == Mul(nHeadsKv, nLayers)
      && (forall i :: 0 <= i < |kCache| ==> kCache[i].Length == Mul(kBands.TotalBytes(), capacity))
      && (forall i :: 0 <= i < |vCache| ==> vCache[i].Length == Mul(vBands.TotalBytes(), capacity))
      && AllDistinct(kCache + vCache)
    }

    /** The order in which keys' coefficients are stored: ranked once calibrated, else Möbius, else none. */
    ghost function Order(): seq<int>
      reads this`useVarReorder, this`varOrder, varOrder, mask, if mask != null then {mask.order} else {}
    {
      if useVarReorder then varOrder[..] else if mask != null then mask.order[..] else Natural(headDim)
    }

    ghost predicate OrderValid()
      reads this`useVarReorder, this`varOrder, varOrder, mask, if mask != null then {mask.order, mask.mu} else {}
    {
      && (mask != null ==> mask.Valid() && mask.n == headDim && mask.order != varOrder)
      && (useVarReorder ==> varOrder.Length == headDim && IsPermutation(varOrder[..]))
    }

    ghost predicate Valid()
      reads this, varOrder, mask, if mask != null then {mask.order, mask.mu} else {}
      reads kCache, vCache
    {
      && Shape() && OrderValid() && |seqLen| == nLayers
      && HoldsK() && HoldsV()
    }

    /** Every logged key is encoded in its entry. */
    ghost predicate HoldsK()
      requires kBands.Valid()
      reads this`useVarReorder, this`varOrder, this`kLog, varOrder, mask, if mask != null then {mask.order} else {}
      reads kCache
    {
      Holds(kBands, kernels, Order(), nHeadsKv, Buffers(kCache), kLog)
    }

    /** Every logged value is encoded in its entry. */
    ghost predicate HoldsV()
      requires vBands.Valid()
      reads this`vLog, vCache
    {
      Holds(vBands, kernels, Natural(headDim), nHeadsKv, Buffers(vCache), vLog)
    }

    lemma OrderIsPermutation()
      requires Shape() && OrderValid()
      ensures IsPermutation(Order()) && |Order()| == headDim
    {
      NaturalIsPermutation(headDim);
    }

    ghost predicate InRange(key: Key) {
      key.layer < nLayers && key.head < nHeadsKv && key.pos < capacity
    }

    /** An empty cache on storage the backend supplies. */
    constructor (nLayers: nat, nHeadsKv: nat, headDim: nat, capacity: nat, kBands: BandConfig, vBands: BandConfig,
                 kernels: Kernels, root: real, mask: MobiusMask?, kCache: seq<array<byte>>, vCache: seq<array<byte>>)
      requires headDim > 0 && kBands.Valid() && vBands.Valid() && kBands.headDim == vBands.headDim == headDim
      requires ValidKernels(kernels, root)
      requires |kCache| == |vCache| == Mul(nHeadsKv, nLayers) && AllDistinct(kCache + vCache)
      requires forall i :: 0 <= i < |kCache| ==> kCache[i].Length == Mul(kBands.TotalBytes(), capacity)
      requires forall i :: 0 <= i < |vCache| ==> vCache[i].Length == Mul(vBands.TotalBytes(), capacity)
      requires mask != null ==> mask.Valid() && mask.n == headDim
      ensures Valid() && kLog == map[] && vLog == map[] && !useVarReorder
      ensures this.nLayers == nLayers && this.nHeadsKv == nHeadsKv && this.headDim == headDim && this.capacity == capacity
      ensures this.kBands == kBands && this.vBands == vBands && this.kernels == kernels && this.root == root
      ensures this.kCache == kCache && this.vCache == vCache && this.mask == mask
      ensures mask != null ==> Order() == mask.order[..]
      ensures mask == null ==> |Order()| == headDim && forall i :: 0 <= i < headDim ==> Order()[i] == i
      ensures forall i :: 0 <= i < nLayers ==> seqLen[i] == 0
    {
      hide ShadowCache.Valid, ShadowCache.OrderValid, ShadowCache.Shape, AllDistinct, ValidKernels, MobiusMask.Valid, BandConfig.Valid,
        BandConfig.RecordOffset, Mul;
      this.nLayers, this.nHeadsKv, this.headDim, this.capacity := nLayers, nHeadsKv, headDim, capacity;
      this.kBands, this.vBands, this.kernels, this.root := kBands, vBands, kernels, root;
      this.mask, this.kCache, this.vCache := mask, kCache, vCache;
      vht2Scratch := new real[headDim];
      mobiusScratch := new real[headDim];
      readScratch := new real[headDim];
      useVarReorder := false;
      varOrder := new int[0];
      seqLen := seq(nLayers, _ => 0);
      kLog, vLog := map[], map[];
      new;
      EmptyIsValid();
    }

    lemma EmptyIsValid()
      requires headDim > 0 && kBands.Valid() && vBands.Valid() && kBands.headDim == vBands.headDim == headDim
      requires ValidKernels(kernels, root)
      requires vht2Scratch.Length == mobiusScratch.Length == readScratch.Length == headDim
      requires vht2Scratch != mobiusScratch && mobiusScratch != readScratch && vht2Scratch != readScratch
      requires |kCache| == |vCache| == Mul(nHeadsKv, nLayers) && AllDistinct(kCache + vCache)
      requires forall i :: 0 <= i < |kCache| ==> kCache[i].Length == Mul(kBands.TotalBytes(), capacity)
      requires forall i :: 0 <= i < |vCache| ==> vCache[i].Length == Mul(vBands.TotalBytes(), capacity)
      requires mask != null ==> mask.Valid() && mask.n == headDim && mask.order != varOrder
      requires !useVarReorder && |seqLen| == nLayers && kLog == map[] && vLog == map[]
      ensures Valid()
    {
      hide AllDistinct, ValidKernels, MobiusMask.Valid, Mul, BandConfig.RecordOffset;
    }

    /** Transform a vector into the write scratch. */
    method Load(vec: seq<real>, scratch: array<real>)
      requires ValidKernels(kernels, root) && |vec| == scratch.Length > 0
      modifies scratch
      ensures forall j :: 0 <= j < |vec| ==> scratch[j] == Transform(kernels, |vec|, AsVector(vec))(j)
    {
      hide Transform, ValidKernels;
      forall i | 0 <= i < |vec| {
        scratch[i] := vec[i];
      }
      ghost var loaded := Values(scratch);
      Forward(scratch, kernels, root);
      TransformLocal(kernels, |vec|, loaded, AsVector(vec));
    }

    method WriteK(layer: nat, head: nat, pos: nat, vec: seq<real>)
      requires Valid() && InRange(Key(layer, head, pos)) && |vec| == headDim
      modifies vht2Scratch, mobiusScratch, kCache, this`kLog
      ensures Valid() && kLog == old(kLog)[Key(layer, head, pos) := vec]
      ensures Order() == old(Order()) && Buffers(vCache) == old(Buffers(vCache))
    {
      hide Stored, OrderValid, ShadowCache.Order, HoldsK, HoldsV, Shape;
      KeepsShape();
      PrepareK(vec);
      StoreK(layer, head, pos, vec);
    }

    lemma KeepsShape()
      requires Shape()
      ensures headDim > 0 && kBands.Valid() && vBands.Valid() && vht2Scratch != mobiusScratch && vht2Scratch.Length == headDim
    {
    }

    /** Encode the write scratch as the key of a vector. */
    method StoreK(layer: nat, head: nat, pos: nat, ghost vec: seq<real>)
      requires Valid() && InRange(Key(layer, head, pos)) && |vec| == headDim == |Order()|
      requires vht2Scratch[..] == Stored(kernels, Order(), vec)
      modifies kCache, this`kLog
      ensures Valid() && kLog == old(kLog)[Key(layer, head, pos) := vec]
      ensures Order() == old(Order()) && Buffers(vCache) == old(Buffers(vCache))
    {
      hide Holds, Stored, OrderValid, ShadowCache.Order, HoldsV, ValidKernels, AllDistinct, Mul, Slot;
      hide BandConfig.RecordOffset, BandConfig.Valid, Entry;
      SlotInRange(nHeadsKv, nLayers, layer, head);
      KStorage(Slot(nHeadsKv, layer, head));
      hide Shape;
      StoreEntry(kBands, kCache, Key(layer, head, pos), Order(), kLog, vec);
      kLog := kLog[Key(layer, head, pos) := vec];
    }

    /** The key storage. */
    lemma KStorage(slot: nat)
      requires Shape() && slot < Mul(nHeadsKv, nLayers)
      ensures kBands.Valid() && vBands.Valid() && kBands.headDim == headDim == vht2Scratch.Length > 0 && slot < |kCache|
      ensures kCache[slot].Length == Mul(kBands.TotalBytes(), capacity) && AllDistinct(kCache)
      ensures kCache[slot] in kCache && kCache[slot] !in vCache
    {
      hide Mul, BandConfig.RecordOffset, ValidKernels;
      DistinctParts(kCache, vCache);
    }

    /** Encode the write scratch as one entry of some storage; what is logged stays encoded. */
    method StoreEntry(c: BandConfig, caches: seq<array<byte>>, key: Key, ghost order: seq<int>, ghost log: Log, ghost vec: seq<real>)
      requires c.Valid() && vht2Scratch.Length == c.headDim == |vec| == |order| > 0
      requires key.head < nHeadsKv && Slot(nHeadsKv, key.layer, key.head) < |caches| && key.pos < capacity && AllDistinct(caches)
      requires caches[Slot(nHeadsKv, key.layer, key.head)].Length == Mul(c.TotalBytes(), capacity)
      requires vht2Scratch[..] == Stored(kernels, order, vec)
      requires Holds(c, kernels, order, nHeadsKv, Buffers(caches), log)
      modifies caches[Slot(nHeadsKv, key.layer, key.head)]
      ensures Holds(c, kernels, order, nHeadsKv, Buffers(caches), log[key := vec])
    {
      hide Holds, Stored, AllDistinct, Mul, Slot, BandConfig.RecordOffset, BandConfig.Valid, IsEncoding, Entry;
      var slot := Slot(nHeadsKv, key.layer, key.head);
      ghost var before := Buffers(caches);
      Store(c, caches, slot, key.pos);
      HoldsAfterWrite(c, kernels, order, nHeadsKv, before, caches[slot][..], log, key, vec);
    }

    /** The write scratch holds the stored form of the vector. */
    method PrepareK(vec: seq<real>)
      requires Shape() && OrderValid() && |vec| == headDim
      modifies vht2Scratch, mobiusScratch
      ensures |Order()| == headDim && vht2Scratch[..] == Stored(kernels, Order(), vec)
    {
      hide Transform, ValidKernels, MobiusMask.Valid, IsPermutation;
      Load(vec, vht2Scratch);
      ghost var t := vht2Scratch[..];
      ReorderK(vht2Scratch);
      assert forall i :: 0 <= i < headDim ==> vht2Scratch[i] == t[Order()[i]];
    }

    method ReorderK(scratch: array<real>)
      requires Shape() && OrderValid() && scratch.Length == headDim && scratch != mobiusScratch
      modifies scratch, mobiusScratch
      ensures |Order()| == headDim && forall i :: 0 <= i < headDim ==> 0 <= Order()[i] < headDim
      ensures forall i :: 0 <= i < headDim ==> scratch[i] == old(scratch[Order()[i]])
    {
      OrderIsPermutation();
      if useVarReorder {
        Reorder(scratch, varOrder[..], mobiusScratch);
      } else if mask != null {
        Reorder(scratch, mask.order[..], mobiusScratch);
      }
    }

    /** Encode the write scratch into entry pos of a slot. */
    method Store(c: BandConfig, caches: seq<array<byte>>, slot: nat, pos: nat)
      requires c.Valid() && vht2Scratch.Length == c.headDim && slot < |caches|
      requires caches[slot].Length == Mul(c.TotalBytes(), capacity) && pos < capacity && AllDistinct(caches)
      modifies caches[slot]
      ensures Buffers(caches) == old(Buffers(caches))[slot := caches[slot][..]]
      ensures Mul(c.TotalBytes(), pos + 1) <= caches[slot].Length
      ensures IsEncoding(c, Entry(caches[slot][..], c.TotalBytes(), pos), vht2Scratch[..])
      ensures forall k :: 0 <= k < caches[slot].Length && !(Mul(c.TotalBytes(), pos) <= k < Mul(c.TotalBytes(), pos + 1)) ==>
                caches[slot][k] == old(caches[slot][k])
    {
      hide IsEncoding, Mul, BandConfig.RecordOffset;
      var size := c.TotalBytes();
      EntryBounds(size, pos);
      MulOrder(pos + 1, capacity, size);
      BandQuantize(c, vht2Scratch[..], caches[slot], Mul(size, pos));
      forall i | 0 <= i < |caches| && i != slot
        ensures caches[i][..] == old(caches[i][..])
      {
        assert caches[i] != caches[slot];
      }
      assert Entry(caches[slot][..], size, pos) == caches[slot][Mul(size, pos)..Mul(size, pos) + size];
    }

    method WriteV(layer: nat, head: nat, pos: nat, vec: seq<real>)
      requires Valid() && InRange(Key(layer, head, pos)) && |vec| == headDim
      modifies vht2Scratch, vCache, this`vLog
      ensures Valid() && vLog == old(vLog)[Key(layer, head, pos) := vec]
      ensures Order() == old(Order()) && Buffers(kCache) == old(Buffers(kCache))
    {
      hide Stored, OrderValid, ShadowCache.Order, HoldsK, HoldsV, Shape;
      KeepsShape();
      PrepareV(vec);
      StoreV(layer, head, pos, vec);
    }

    /** Encode the write scratch as the value of a vector. */
    method StoreV(layer: nat, head: nat, pos: nat, ghost vec: seq<real>)
      requires Valid() && InRange(Key(layer, head, pos)) && |vec| == headDim
      requires vht2Scratch[..] == Stored(kernels, Natural(headDim), vec)
      modifies vCache, this`vLog
      ensures Valid() && vLog == old(vLog)[Key(layer, head, pos) := vec]
      ensures Order() == old(Order()) && Buffers(kCache) == old(Buffers(kCache))
    {
      hide Holds, Stored, OrderValid, ShadowCache.Order, HoldsK, ValidKernels, AllDistinct, Mul, Slot;
      hide BandConfig.RecordOffset, BandConfig.Valid, Entry;
      SlotInRange(nHeadsKv, nLayers, layer, head);
      VStorage(Slot(nHeadsKv, layer, head));
      hide Shape;
      StoreEntry(vBands, vCache, Key(layer, head, pos), Natural(headDim), vLog, vec);
      vLog := vLog[Key(layer, head, pos) := vec];
    }

    /** The value storage. */
    lemma VStorage(slot: nat)
      requires Shape() && slot < Mul(nHeadsKv, nLayers)
      ensures vBands.Valid() && kBands.Valid() && vBands.headDim == headDim == vht2Scratch.Length > 0 && slot < |vCache|
      ensures vCache[slot].Length == Mul(vBands.TotalBytes(), capacity) && AllDistinct(vCache) && vCache[slot] !in kCache
    {
      hide Mul, AllDistinct;
      DistinctParts(kCache, vCache);
      assert vCache[slot] in vCache;
    }

    method PrepareV(vec: seq<real>)
      requires Shape() && |vec| == headDim
      modifies vht2Scratch
      ensures vht2Scratch[..] == Stored(kernels, Natural(headDim), vec)
    {
      hide Transform, ValidKernels;
      Load(vec, vht2Scratch);
    }

    /** The entry under a key. */
    ghost function EntryOf(c: BandConfig, caches: seq<array<byte>>, key: Key): (e: seq<byte>)
      requires c.Valid() && InRange(key) && |caches| == Mul(nHeadsKv, nLayers)
      requires forall i :: 0 <= i < |caches| ==> caches[i].Length == Mul(c.TotalBytes(), capacity)
      reads caches
      ensures |e| == c.TotalBytes()
    {
      SlotInRange(nHeadsKv, nLayers, key.layer, key.head);
      MulOrder(key.pos + 1, capacity, c.TotalBytes());
      Entry(caches[Slot(nHeadsKv, key.layer, key.head)][..], c.TotalBytes(), key.pos)
    }

    /** What a read returns: entry, decoded as far as asked, restored. */
    ghost predicate IsRead(c: BandConfig, order: seq<int>, entry: seq<byte>, maxBands: int, out: seq<real>)
      requires c.Valid() && |entry| == c.TotalBytes() && IsPermutation(order) && |order| == c.headDim > 0
    {
      RecordsOrdered(c, BandsRead(c, maxBands), c.Bands());
      out == Restored(kernels, order, Decode(c, entry, BandsRead(c, maxBands)))
    }

    /** Decode entry pos of a slot into the read scratch. */
    method Fetch(c: BandConfig, caches: seq<array<byte>>, layer: nat, head: nat, pos: nat, maxBands: int)
      requires Shape() && c.Valid() && c.headDim == headDim && InRange(Key(layer, head, pos))
      requires |caches| == Mul(nHeadsKv, nLayers)
      requires forall i :: 0 <= i < |caches| ==> caches[i].Length == Mul(c.TotalBytes(), capacity)
      modifies readScratch
      ensures Covers(c, EntryOf(c, caches, Key(layer, head, pos)), BandsRead(c, maxBands))
      ensures readScratch[..] == Decode(c, EntryOf(c, caches, Key(layer, head, pos)), BandsRead(c, maxBands))
    {
      hide Decode, Mul, Slot, BandConfig.RecordOffset, ValidKernels, AllDistinct;
      var slot := Slot(nHeadsKv, layer, head);
      var size := c.TotalBytes();
      SlotInRange(nHeadsKv, nLayers, layer, head);
      EntryBounds(size, pos);
      MulOrder(pos + 1, capacity, size);
      RecordsOrdered(c, BandsRead(c, maxBands), c.Bands());
      var src := caches[slot][Mul(size, pos)..Mul(size, pos + 1)];
      BandDequantizePartial(c, src, BandsRead(c, maxBands), readScratch);
    }

    method ReadKPartial(layer: nat, head: nat, pos: nat, kOut: array<real>, maxBands: int)
      requires Valid() && InRange(Key(layer, head, pos)) && kOut.Length == headDim
      requires kOut !in {vht2Scratch, mobiusScratch, readScratch}
      modifies readScratch, mobiusScratch, kOut
      ensures Valid() && Order() == old(Order())
      ensures IsPermutation(Order()) && |Order()| == headDim
      ensures IsRead(kBands, Order(), EntryOf(kBands, kCache, Key(layer, head, pos)), maxBands, kOut[..])
      ensures Key(layer, head, pos) in kLog ==>
                WithinBudget(kBands, Order(), kLog[Key(layer, head, pos)], maxBands, kOut[..])
      ensures forall i :: BandStart(kBands, BandsRead(kBands, maxBands)) <= i < headDim ==>
                Transform(kernels, headDim, AsVector(kOut[..]))(Order()[i]) == 0.0
    {
      hide Holds, Stored, OrderValid, ShadowCache.Order, IsPermutation, ValidKernels, AllDistinct, Mul, Slot, IsEncoding, IsRead, Transform,
        BandStart, WithinBudget;
      DecodeK(layer, head, pos, kOut, maxBands);
      DroppedAreZero(kBands, Order(), EntryOf(kBands, kCache, Key(layer, head, pos)), maxBands, kOut[..]);
      if Key(layer, head, pos) in kLog {
        ReadIsClose(kBands, kCache, Order(), kLog, Key(layer, head, pos), maxBands, kOut[..]);
      }
    }

    /** Decode, scatter and transform back. */
    method DecodeK(layer: nat, head: nat, pos: nat, kOut: array<real>, maxBands: int)
      requires Valid() && InRange(Key(layer, head, pos)) && kOut.Length == headDim
      requires kOut !in {vht2Scratch, mobiusScratch, readScratch}
      modifies readScratch, mobiusScratch, kOut
      ensures Valid() && Order() == old(Order())
      ensures IsPermutation(Order()) && |Order()| == headDim
      ensures IsRead(kBands, Order(), EntryOf(kBands, kCache, Key(layer, head, pos)), maxBands, kOut[..])
    {
      hide Holds, Stored, OrderValid, ShadowCache.Order, IsPermutation, ValidKernels, AllDistinct, Mul, Slot, Decode, Restored, IsEncoding, IsRead;
      OrderIsPermutation();
      Fetch(kBands, kCache, layer, head, pos, maxBands);
      ghost var y := readScratch[..];
      UnreorderK(readScratch);
      Unload(readScratch, kOut, Order(), y);
      FetchIsRead(kBands, kCache, Order(), Key(layer, head, pos), maxBands, y, kOut[..]);
    }

    method ReadK(layer: nat, head: nat, pos: nat, kOut: array<real>)
      requires Valid() && InRange(Key(layer, head, pos)) && kOut.Length == headDim
      requires kOut !in {vht2Scratch, mobiusScratch, readScratch}
      modifies readScratch, mobiusScratch, kOut
      ensures Valid() && Order() == old(Order())
      ensures IsPermutation(Order()) && |Order()| == headDim
      ensures IsRead(kBands, Order(), EntryOf(kBands, kCache, Key(layer, head, pos)), -1, kOut[..])
      ensures Key(layer, head, pos) in kLog ==>
                WithinBudget(kBands, Order(), kLog[Key(layer, head, pos)], -1, kOut[..])
    {
      ReadKPartial(layer, head, pos, kOut, -1);
    }

    method ReadVPartial(layer: nat, head: nat, pos: nat, vOut: array<real>, maxBands: int)
      requires Valid() && InRange(Key(layer, head, pos)) && vOut.Length == headDim
      requires vOut !in {vht2Scratch, mobiusScratch, readScratch}
      modifies readScratch, vOut
      ensures Valid() && Order() == old(Order()) && IsPermutation(Natural(headDim))
      ensures IsRead(vBands, Natural(headDim), EntryOf(vBands, vCache, Key(layer, head, pos)), maxBands, vOut[..])
      ensures Key(layer, head, pos) in vLog ==>
                WithinBudget(vBands, Natural(headDim), vLog[Key(layer, head, pos)], maxBands, vOut[..])
      ensures forall i :: BandStart(vBands, BandsRead(vBands, maxBands)) <= i < headDim ==>
                Transform(kernels, headDim, AsVector(vOut[..]))(Natural(headDim)[i]) == 0.0
    {
      hide Holds, Stored, OrderValid, ShadowCache.Order, IsPermutation, ValidKernels, AllDistinct, Mul, Slot, Decode, Restored, IsEncoding, IsRead;
      NaturalIsPermutation(headDim);
      Fetch(vBands, vCache, layer, head, pos, maxBands);
      ghost var y := readScratch[..];
      Unload(readScratch, vOut, Natural(headDim), y);
      FetchIsRead(vBands, vCache, Natural(headDim), Key(layer, head, pos), maxBands, y, vOut[..]);
      DroppedAreZero(vBands, Natural(headDim), EntryOf(vBands, vCache, Key(layer, head, pos)), maxBands, vOut[..]);
      if Key(layer, head, pos) in vLog {
        ReadIsClose(vBands, vCache, Natural(headDim), vLog, Key(layer, head, pos), maxBands, vOut[..]);
      }
    }

    /** The squared distance of a read to the vector x is within the codec's budget for x. */
    ghost predicate WithinBudget(c: BandConfig, order: seq<int>, x: seq<real>, maxBands: int, out: seq<real>)
      requires c.Valid()
    {
      && |out| == |x| == |order| == c.headDim > 0
      && SquaredError(out, x) <= Budget(c, Stored(kernels, order, x), BandsRead(c, maxBands), c.Bands())
    }

    lemma FetchIsRead(c: BandConfig, caches: seq<array<byte>>, order: seq<int>, key: Key, maxBands: int, y: seq<real>, out: seq<real>)
      requires c.Valid() && InRange(key) && |caches| == Mul(nHeadsKv, nLayers) && IsPermutation(order) && |order| == c.headDim > 0
      requires forall i :: 0 <= i < |caches| ==> caches[i].Length == Mul(c.TotalBytes(), capacity)
      requires Covers(c, EntryOf(c, caches, key), BandsRead(c, maxBands))
      requires y == Decode(c, EntryOf(c, caches, key), BandsRead(c, maxBands)) && out == Restored(kernels, order, y)
      ensures IsRead(c, order, EntryOf(c, caches, key), maxBands, out)
    {
      hide Decode, Restored, Mul, BandConfig.RecordOffset;
      RecordsOrdered(c, BandsRead(c, maxBands), c.Bands());
    }

    /** Coefficients of bands past the bound are missing from what is read. */
    lemma DroppedAreZero(c: BandConfig, order: seq<int>, entry: seq<byte>, maxBands: int, out: seq<real>)
      requires ValidKernels(kernels, root) && c.Valid() && |entry| == c.TotalBytes()
      requires IsPermutation(order) && |order| == c.headDim > 0 && IsRead(c, order, entry, maxBands, out)
      ensures |out| == c.headDim
      ensures forall i :: BandStart(c, BandsRead(c, maxBands)) <= i < c.headDim ==>
                Transform(kernels, c.headDim, AsVector(out))(order[i]) == 0.0
    {
      hide ValidKernels, IsPermutation, Decode, Restored, Transform, BandConfig.RecordOffset, BandConfig.Offset;
      var m := BandsRead(c, maxBands);
      RecordsOrdered(c, m, c.Bands());
      var y := Decode(c, entry, m);
      forall i | BandStart(c, m) <= i < c.headDim
        ensures Transform(kernels, c.headDim, AsVector(out))(order[i]) == 0.0
      {
        SkippedDecodesToZero(c, entry, m, i);
        TransformOfRestored(kernels, root, order, y, i);
      }
    }

    lemma ReadIsClose(c: BandConfig, caches: seq<array<byte>>, order: seq<int>, log: Log, key: Key, maxBands: int, out: seq<real>)
      requires ValidKernels(kernels, root) && c.Valid() && InRange(key) && |caches| == Mul(nHeadsKv, nLayers)
      requires IsPermutation(order) && |order| == c.headDim > 0
      requires forall i :: 0 <= i < |caches| ==> caches[i].Length == Mul(c.TotalBytes(), capacity)
      requires Holds(c, kernels, order, nHeadsKv, Buffers(caches), log) && key in log
      requires IsRead(c, order, EntryOf(c, caches, key), maxBands, out)
      ensures WithinBudget(c, order, log[key], maxBands, out)
    {
      hide Decode, Restored, Stored, Mul, Slot, BandConfig.RecordOffset, ValidKernels, IsPermutation, IsEncoding, SquaredError, Budget;
      var m := BandsRead(c, maxBands);
      RecordsOrdered(c, m, c.Bands());
      assert HoldsKey(c, kernels, order, nHeadsKv, Buffers(caches), key, log[key]);
      ReadBackError(kernels, root, c, order, EntryOf(c, caches, key), log[key], m);
    }

    method UnreorderK(scratch: array<real>)
      requires Shape() && OrderValid() && scratch.Length == headDim && scratch != mobiusScratch
      modifies scratch, mobiusScratch
      ensures |Order()| == headDim
      ensures forall i :: 0 <= i < headDim ==> 0 <= Order()[i] < headDim && scratch[Order()[i]] == old(scratch[i])
    {
      OrderIsPermutation();
      if useVarReorder {
        Unreorder(scratch, varOrder[..], mobiusScratch);
      } else if mask != null {
        Unreorder(scratch, mask.order[..], mobiusScratch);
      }
    }

    /** Transform the scattered coefficients back and copy them out. */
    method Unload(scratch: array<real>, out: array<real>, ghost order: seq<int>, ghost y: seq<real>)
      requires Shape() && scratch.Length == out.Length == |order| == |y| == headDim && scratch != out
      requires IsPermutation(order)
      requires forall i :: 0 <= i < headDim ==> 0 <= order[i] < headDim && scratch[order[i]] == y[i]
      modifies scratch, out
      ensures out[..] == Restored(kernels, order, y)
    {
      hide Transform, ValidKernels;
      ghost var scattered := Values(scratch);
      ScatteredUnique(order, y, scratch[..]);
      Forward(scratch, kernels, root);
      TransformLocal(kernels, headDim, scattered, AsVector(Scattered(order, y)));
      forall i | 0 <= i < headDim {
        out[i] := scratch[i];
      }
    }

    /** The ranking of a finished calibration replaces the order keys are stored in. Entries written
        before are not re-encoded, so nothing is known of them any more; values are not affected. */
    method CalibrateEnd(ranking: int -> real)
      requires Valid()
      modifies this`useVarReorder, this`varOrder, this`kLog
      ensures Valid() && useVarReorder && kLog == map[] && vLog == old(vLog)
      ensures IsPermutation(Order()) && |Order()| == headDim && Ranked(Order(), ranking)
      ensures forall i, k :: 0 <= i < k < headDim ==> ranking(Order()[i]) >= ranking(Order()[k])
    {
      hide Holds, IsPermutation, Ranked, ValidKernels, AllDistinct;
      var order := RankedOrder(headDim, ranking);
      RankedIsDescending(order[..], ranking);
      useVarReorder, varOrder := true, order;
      kLog := map[];
      assert Holds(kBands, kernels, Order(), nHeadsKv, Buffers(kCache), kLog) by {
        EmptyLog(kBands, kernels, Order(), nHeadsKv, Buffers(kCache));
      }
    }
  }

  lemma EmptyLog(c: BandConfig, h: Kernels, order: seq<int>, heads: nat, buffers: seq<seq<byte>>)
    requires c.Valid()
    ensures Holds(c, h, order, heads, buffers, map[])
  {
  }

  method RankedOrder(n: nat, ranking: int -> real) returns (order: array<int>)
    ensures fresh(order) && order.Length == n
    ensures IsPermutation(order[..]) && Ranked(order[..], ranking)
  {
    hide Ranked, Distinct;
    order := new int[n](i => i);
    assert order[..n] == Natural(n);
    NaturalIsPermutation(n);
    RankDescending(order, n, ranking);
    assert order[..n] == order[..];
    RankingIsPermutation(order[..], n);
  }
}
