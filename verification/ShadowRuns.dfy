/** Whole runs of the compressed cache: writes, partial reads and calibrations in any order. What a read
    finds is decided by the last write under its key, unless a calibration came after it. */
module ShadowRuns {
  import opened Permutations
  import opened ShadowCaches

  datatype Op = PutK(key: Key, vec: seq<real>)
              | PutV(key: Key, vec: seq<real>)
              | GetK(key: Key, maxBands: int)
              | GetV(key: Key, maxBands: int)
              | Calibrate(ranking: int -> real)

  /** The vector of the last write under a key, if it can still be read back. */
  datatype Held = Unknown | Vector(x: seq<real>)

  ghost function HeldK(ops: seq<Op>, key: Key): Held {
    if ops == [] then Unknown
    else
      match ops[|ops| - 1]
      case PutK(k, x) => if k == key then Vector(x) else HeldK(ops[..|ops| - 1], key)
      case Calibrate(_) => Unknown
      case _ => HeldK(ops[..|ops| - 1], key)
  }

  ghost function HeldV(ops: seq<Op>, key: Key): Held {
    if ops == [] then Unknown
    else
      match ops[|ops| - 1]
      case PutV(k, x) => if k == key then Vector(x) else HeldV(ops[..|ops| - 1], key)
      case _ => HeldV(ops[..|ops| - 1], key)
  }

  /** Operation i is the write that decides a read of key after ops. */
  ghost predicate Decides(ops: seq<Op>, key: Key, i: int) {
    && 0 <= i < |ops| && ops[i].PutK? && ops[i].key == key
    && forall j :: i < j < |ops| ==> !ops[j].Calibrate? && !(ops[j].PutK? && ops[j].key == key)
  }

  /** A vector is held under a key exactly when some write of it decides. */
  lemma {:induction false} HeldIsLastWrite(ops: seq<Op>, key: Key, x: seq<real>)
    ensures HeldK(ops, key) == Vector(x) <==> exists i :: Decides(ops, key, i) && ops[i].vec == x
  {
    if ops != [] {
      var n, init, last := |ops| - 1, ops[..|ops| - 1], ops[|ops| - 1];
      HeldIsLastWrite(init, key, x);
      forall i | 0 <= i < n
        ensures Decides(ops, key, i) <==> Decides(init, key, i) && !last.Calibrate? && !(last.PutK? && last.key == key)
      {
        assert forall j :: 0 <= j < n ==> init[j] == ops[j];
      }
      if last.PutK? && last.key == key {
        assert Decides(ops, key, n);
      }
      if HeldK(init, key) == Vector(x) {
        var i :| Decides(init, key, i) && init[i].vec == x;
        assert ops[i] == init[i];
      }
    }
  }

  ghost predicate LogMatches(log: Log, held: Key -> Held) {
    && (forall key :: key in log ==> held(key) == Vector(log[key]))
    && (forall key :: held(key).Vector? ==> key in log)
  }

  ghost predicate OpFits(cache: ShadowCache, op: Op) {
    match op
    case PutK(key, x) => cache.InRange(key) && |x| == cache.headDim
    case PutV(key, x) => cache.InRange(key) && |x| == cache.headDim
    case GetK(key, _) => cache.InRange(key)
    case GetV(key, _) => cache.InRange(key)
    case Calibrate(_) => true
  }

  method Step(cache: ShadowCache, op: Op, out: array<real>)
    requires cache.Valid() && OpFits(cache, op) && out.Length == cache.headDim
    requires out !in {cache.vht2Scratch, cache.mobiusScratch, cache.readScratch}
    modifies cache, cache.vht2Scratch, cache.mobiusScratch, cache.readScratch, cache.kCache, cache.vCache, out
    ensures cache.Valid() && cache.seqLen == old(cache.seqLen)
    ensures cache.kLog == match op
                          case PutK(key, x) => old(cache.kLog)[key := x]
                          case Calibrate(_) => map[]
                          case _ => old(cache.kLog)
    ensures cache.vLog == match op case PutV(key, x) => old(cache.vLog)[key := x] case _ => old(cache.vLog)
    ensures match op
            case GetK(key, m) => key in cache.kLog ==> cache.WithinBudget(cache.kBands, cache.Order(), cache.kLog[key], m, out[..])
            case GetV(key, m) => key in cache.vLog ==> cache.WithinBudget(cache.vBands, Natural(cache.headDim), cache.vLog[key], m, out[..])
            case _ => true
  {
    hide ShadowCache.Valid, ShadowCache.WithinBudget, ShadowCache.IsRead, IsPermutation;
    match op {
      case PutK(key, x) => cache.WriteK(key.layer, key.head, key.pos, x);
      case PutV(key, x) => cache.WriteV(key.layer, key.head, key.pos, x);
      case GetK(key, m) => cache.ReadKPartial(key.layer, key.head, key.pos, out, m);
      case GetV(key, m) => cache.ReadVPartial(key.layer, key.head, key.pos, out, m);
      case Calibrate(ranking) => cache.CalibrateEnd(ranking);
    }
  }

  /** After any run from an empty cache, a read of any key, of any number of bands, returns the vector its
      last write left, within the codec's budget for that vector. */
  method RunThenRead(cache: ShadowCache, ops: seq<Op>, key: Key, maxBands: int, kOut: array<real>, vOut: array<real>)
    requires cache.Valid() && cache.kLog == map[] && cache.vLog == map[]
    requires forall i :: 0 <= i < |ops| ==> OpFits(cache, ops[i])
    requires cache.InRange(key) && kOut.Length == vOut.Length == cache.headDim && kOut != vOut
    requires {kOut, vOut} !! {cache.vht2Scratch, cache.mobiusScratch, cache.readScratch}
    modifies cache, cache.vht2Scratch, cache.mobiusScratch, cache.readScratch, cache.kCache, cache.vCache, kOut, vOut
    ensures cache.Valid() && cache.seqLen == old(cache.seqLen)
    ensures HeldK(ops, key).Vector? ==> cache.WithinBudget(cache.kBands, cache.Order(), HeldK(ops, key).x, maxBands, kOut[..])
    ensures HeldV(ops, key).Vector? ==>
              cache.WithinBudget(cache.vBands, Natural(cache.headDim), HeldV(ops, key).x, maxBands, vOut[..])
  {
    hide ShadowCache.Valid, ShadowCache.WithinBudget;
    for i := 0 to |ops|
      invariant cache.Valid() && cache.seqLen == old(cache.seqLen)
      invariant LogMatches(cache.kLog, k => HeldK(ops[..i], k))
      invariant LogMatches(cache.vLog, k => HeldV(ops[..i], k))
    {
      assert ops[..i + 1][..i] == ops[..i];
      Step(cache, ops[i], kOut);
    }
    assert ops[..|ops|] == ops;
    Step(cache, GetV(key, maxBands), vOut);
    Step(cache, GetK(key, maxBands), kOut);
  }
}
