/** Rebalancing a bit allocation to an exact total (bridge/tools/sp_auto_bands.py, `_allocate`, from the
    clipped starting allocation on). */
module BitBudget {
  import opened IntArith
  import opened Permutations

  function SumOf(bits: seq<int>): int {
    if bits == [] then 0 else SumOf(bits[..|bits| - 1]) + bits[|bits| - 1]
  }

  lemma {:induction false} SumUpdate(bits: seq<int>, k: nat, v: int)
    requires k < |bits|
    ensures SumOf(bits[k := v]) == SumOf(bits) + v - bits[k]
  {
    var n := |bits| - 1;
    if k < n {
      assert bits[k := v][..n] == bits[..n][k := v];
      SumUpdate(bits[..n], k, v);
    } else {
      assert bits[k := v][..n] == bits[..n];
    }
  }

  function Clip(v: int, lo: int, hi: int): int {
    if v < lo then lo else if v > hi then hi else v
  }

  ghost predicate Within(bits: seq<int>, lo: int, hi: int) {
    forall k :: 0 <= k < |bits| ==> lo <= bits[k] <= hi
  }

  /** What an entry can still take in one direction. */
  function Room(bit: int, up: bool, lo: int, hi: int): int {
    if up then hi - bit else bit - lo
  }

  function Least(a: int, b: int): int {
    if a < b then a else b
  }

  /** How often entry k is still visited from step i on: four rounds in the given order. */
  ghost function Left(order: seq<int>, i: int, k: int): int
    requires k in order
  {
    4 - i / |order| - if IndexOf(order, k) < i % |order| then 1 else 0
  }

  lemma LeftStep(order: seq<int>, i: nat, k: int)
    requires IsPermutation(order) && k in order
    ensures Left(order, i + 1, k) == Left(order, i, k) - if order[i % |order|] == k then 1 else 0
  {
    var n := |order|;
    var q, r := i / n, i % n;
    assert i == q * n + r;
    if r == n - 1 {
      assert i + 1 == (q + 1) * n;
      DivModUnique(i + 1, n, q + 1, 0);
    } else {
      DivModUnique(i + 1, n, q, r + 1);
    }
    assert order[IndexOf(order, k)] == k;
  }

  lemma LeftEnds(order: seq<int>, k: int)
    requires k in order
    ensures Left(order, 0, k) == 4 && Left(order, 4 * |order|, k) == 0
  {
    DivModUnique(0, |order|, 0, 0);
    DivModUnique(4 * |order|, |order|, 4, 0);
  }

  /** What the first m entries can still take from step i on. */
  ghost function Remaining(bits: seq<int>, order: seq<int>, i: int, up: bool, lo: int, hi: int, m: nat): int
    requires IsPermutation(order) && m <= |bits| == |order|
  {
    if m == 0 then 0
    else Remaining(bits, order, i, up, lo, hi, m - 1) + Least(Left(order, i, m - 1), Room(bits[m - 1], up, lo, hi))
  }

  /** What the entries can take in four rounds: their room, at most four each. */
  ghost function Capacity(bits: seq<int>, up: bool, lo: int, hi: int): int {
    if bits == [] then 0
    else Capacity(bits[..|bits| - 1], up, lo, hi) + Least(4, Room(bits[|bits| - 1], up, lo, hi))
  }

  lemma {:induction false} RemainingStart(bits: seq<int>, order: seq<int>, up: bool, lo: int, hi: int, m: nat)
    requires IsPermutation(order) && m <= |bits| == |order|
    ensures Remaining(bits, order, 0, up, lo, hi, m) == Capacity(bits[..m], up, lo, hi)
  {
    hide IsPermutation, Left;
    if m > 0 {
      RemainingStart(bits, order, up, lo, hi, m - 1);
      InOrder(order, m - 1);
      LeftEnds(order, m - 1);
      assert bits[..m][..m - 1] == bits[..m - 1];
    }
  }

  lemma InOrder(order: seq<int>, k: nat)
    requires IsPermutation(order) && k < |order|
    ensures k in order
  {
  }

  lemma {:induction false} RemainingEnd(bits: seq<int>, order: seq<int>, up: bool, lo: int, hi: int, m: nat)
    requires IsPermutation(order) && m <= |bits| == |order| && Within(bits, lo, hi)
    ensures Remaining(bits, order, 4 * |order|, up, lo, hi, m) == 0
  {
    hide IsPermutation, Left;
    if m > 0 {
      RemainingEnd(bits, order, up, lo, hi, m - 1);
      InOrder(order, m - 1);
      LeftEnds(order, m - 1);
    }
  }

  lemma {:induction false} RemainingNonNegative(bits: seq<int>, order: seq<int>, i: nat, up: bool, lo: int, hi: int, m: nat)
    requires IsPermutation(order) && m <= |bits| == |order| && Within(bits, lo, hi) && i <= 4 * |order|
    ensures Remaining(bits, order, i, up, lo, hi, m) >= 0
  {
    if m > 0 {
      RemainingNonNegative(bits, order, i, up, lo, hi, m - 1);
      InOrder(order, m - 1);
      LeftNonNegative(order, i, m - 1);
    }
  }

  lemma LeftNonNegative(order: seq<int>, i: nat, k: int)
    requires k in order && i <= 4 * |order|
    ensures Left(order, i, k) >= 0
  {
    RoundsLeft(i, |order|, i / |order|, i % |order|);
  }

  lemma RoundsLeft(i: nat, n: nat, q: int, r: int)
    requires n > 0 && i <= 4 * n && q == i / n && r == i % n
    ensures q <= 3 || (q == 4 && r == 0)
  {
    assert i == q * n + r;
    if q >= 5 {
      MulMono(5, q, n);
    } else if q == 4 {
      assert r == i - 4 * n;
    }
  }

  /** One step of the loop: the visited entry moves by one if it has room. */
  ghost function Moved(bits: seq<int>, k: int, up: bool, lo: int, hi: int): (r: seq<int>)
    requires 0 <= k < |bits|
    ensures |r| == |bits|
  {
    if Room(bits[k], up, lo, hi) > 0 then bits[k := bits[k] + if up then 1 else -1] else bits
  }

  lemma {:induction false} RemainingStep(bits: seq<int>, order: seq<int>, i: nat, up: bool, lo: int, hi: int, m: nat)
    requires IsPermutation(order) && m <= |bits| == |order| && |order| > 0 && Within(bits, lo, hi) && i < 4 * |order|
    ensures 0 <= i % |order| < |order| && 0 <= order[i % |order|] < |bits|
    ensures var k := order[i % |order|];
            Remaining(Moved(bits, k, up, lo, hi), order, i + 1, up, lo, hi, m)
            == Remaining(bits, order, i, up, lo, hi, m) - if k < m && Room(bits[k], up, lo, hi) > 0 then 1 else 0
  {
    var k := order[i % |order|];
    if m > 0 {
      RemainingStep(bits, order, i, up, lo, hi, m - 1);
      InOrder(order, m - 1);
      hide Left, IsPermutation, Remaining;
      LeftStep(order, i, m - 1);
      LeftNonNegative(order, i + 1, m - 1);
      RemainingNext(bits, order, i, up, lo, hi, m);
      RemainingNext(Moved(bits, k, up, lo, hi), order, i + 1, up, lo, hi, m);
    }
  }

  lemma RemainingNext(bits: seq<int>, order: seq<int>, i: int, up: bool, lo: int, hi: int, m: nat)
    requires IsPermutation(order) && 0 < m <= |bits| == |order|
    ensures m - 1 in order
    ensures Remaining(bits, order, i, up, lo, hi, m)
            == Remaining(bits, order, i, up, lo, hi, m - 1) + Least(Left(order, i, m - 1), Room(bits[m - 1], up, lo, hi))
  {
  }

  function Magnitude(delta: int): int {
    if delta < 0 then -delta else delta
  }

  /** After some steps every entry has moved once for each of its visits, as far as its room went. */
  ghost predicate IsSpread(start: seq<int>, bits: seq<int>, order: seq<int>, steps: int, up: bool, lo: int, hi: int) {
    && |bits| == |start| == |order| && IsPermutation(order)
    && forall k :: 0 <= k < |bits| ==> SpreadAt(start[k], bits[k], order, steps, k, up, lo, hi)
  }

  /** The loop stops after this many steps: when the total is hit, or at four rounds. */
  ghost predicate StopsAt(start: seq<int>, bits: seq<int>, order: seq<int>, steps: int, totalBits: int, lo: int, hi: int) {
    && 0 <= steps <= 4 * |order| && (steps == 4 * |order| || SumOf(bits) == totalBits)
    && IsSpread(start, bits, order, steps, totalBits > SumOf(start), lo, hi)
  }

  ghost predicate SpreadAt(start: int, bit: int, order: seq<int>, steps: int, k: int, up: bool, lo: int, hi: int) {
    k in order
    && var moved := Least(4 - Left(order, steps, k), Room(start, up, lo, hi));
       bit == if up then start + moved else start - moved
  }

  lemma SpreadStart(start: seq<int>, order: seq<int>, up: bool, lo: int, hi: int)
    requires |start| == |order| && IsPermutation(order) && Within(start, lo, hi)
    ensures IsSpread(start, start, order, 0, up, lo, hi)
  {
    hide Left, IsPermutation;
    forall k | 0 <= k < |start|
      ensures SpreadAt(start[k], start[k], order, 0, k, up, lo, hi)
    {
      InOrder(order, k);
      LeftEnds(order, k);
    }
  }

  lemma SpreadStep(start: seq<int>, bits: seq<int>, order: seq<int>, i: nat, up: bool, lo: int, hi: int)
    requires IsSpread(start, bits, order, i, up, lo, hi) && Within(start, lo, hi) && i < 4 * |order|
    requires 0 <= order[i % |order|] < |bits|
    ensures IsSpread(start, Moved(bits, order[i % |order|], up, lo, hi), order, i + 1, up, lo, hi)
  {
    hide Left, IsPermutation;
    var next := Moved(bits, order[i % |order|], up, lo, hi);
    forall k | 0 <= k < |bits|
      ensures SpreadAt(start[k], next[k], order, i + 1, k, up, lo, hi)
    {
      assert SpreadAt(start[k], bits[k], order, i, k, up, lo, hi);
      LeftStep(order, i, k);
      LeftNonNegative(order, i, k);
      LeftAtMostFour(order, i, k);
    }
  }

  lemma LeftAtMostFour(order: seq<int>, i: nat, k: int)
    requires k in order
    ensures Left(order, i, k) <= 4
  {
    QuotientNonNegative(i, |order|);
  }

  /** The rebalancing loop, from a starting allocation that is clipped first. It makes at most 4n steps. The
      final miss is what the entries could not take. */
  method Rebalance(bits: array<int>, rounded: seq<int>, totalBits: int, minBits: int, maxBits: int, order: seq<int>)
    requires minBits <= maxBits && |rounded| == bits.Length == |order| && IsPermutation(order)
    modifies bits
    ensures Within(bits[..], minBits, maxBits)
    ensures var start := Clipped(rounded, minBits, maxBits);
            var delta := totalBits - SumOf(start);
            var capacity := Capacity(start, delta > 0, minBits, maxBits);
            && Magnitude(totalBits - SumOf(bits[..])) == (if Magnitude(delta) <= capacity then 0 else Magnitude(delta) - capacity)
            && (SumOf(bits[..]) == totalBits <==> Magnitude(delta) <= capacity)
    ensures maxBits - minBits <= 4 && Mul(|order|, minBits) <= totalBits <= Mul(|order|, maxBits) ==> SumOf(bits[..]) == totalBits
    ensures exists steps :: StopsAt(Clipped(rounded, minBits, maxBits), bits[..], order, steps, totalBits, minBits, maxBits)
  {
    hide IsPermutation, Remaining, Capacity, SumOf, Left, IsSpread;
    var n := bits.Length;
    forall k | 0 <= k < n {
      bits[k] := Clip(rounded[k], minBits, maxBits);
    }
    ghost var start := bits[..];
    assert start == Clipped(rounded, minBits, maxBits);
    var delta := SumLoop(bits, totalBits);
    ghost var delta0, up := delta, delta > 0;
    ghost var capacity := Capacity(start, up, minBits, maxBits);
    RemainingStart(start, order, up, minBits, maxBits, n);
    assert start[..n] == start;
    SpreadStart(start, order, up, minBits, maxBits);
    var i := 0;
    while delta != 0 && i < 4 * n
      invariant 0 <= i <= 4 * n
      invariant Within(bits[..], minBits, maxBits)
      invariant delta == totalBits - SumOf(bits[..])
      invariant delta == 0 || (delta > 0) == up
      invariant Magnitude(delta) - Remaining(bits[..], order, i, up, minBits, maxBits, n) == Magnitude(delta0) - capacity
      invariant IsSpread(start, bits[..], order, i, up, minBits, maxBits)
      decreases 4 * n - i
    {
      ghost var before := bits[..];
      RemainingStep(before, order, i, up, minBits, maxBits, n);
      SpreadStep(start, before, order, i, up, minBits, maxBits);
      var idx := order[i % n];
      if delta > 0 && bits[idx] < maxBits {
        SumUpdate(before, idx, bits[idx] + 1);
        bits[idx] := bits[idx] + 1;
        delta := delta - 1;
      } else if delta < 0 && bits[idx] > minBits {
        SumUpdate(before, idx, bits[idx] - 1);
        bits[idx] := bits[idx] - 1;
        delta := delta + 1;
      }
      assert bits[..] == Moved(before, idx, up, minBits, maxBits);
      i := i + 1;
    }
    assert StopsAt(start, bits[..], order, i, totalBits, minBits, maxBits);
    RemainingNonNegative(bits[..], order, i, up, minBits, maxBits, n);
    if i == 4 * n {
      RemainingEnd(bits[..], order, up, minBits, maxBits, n);
    }
    if maxBits - minBits <= 4 && Mul(n, minBits) <= totalBits <= Mul(n, maxBits) {
      NarrowRangeIsExact(start, totalBits, minBits, maxBits);
    }
  }

  ghost function Clipped(rounded: seq<int>, lo: int, hi: int): (r: seq<int>)
    ensures |r| == |rounded|
  {
    seq(|rounded|, k requires 0 <= k < |rounded| => Clip(rounded[k], lo, hi))
  }

  method SumLoop(bits: array<int>, totalBits: int) returns (delta: int)
    ensures delta == totalBits - SumOf(bits[..])
  {
    var sum := 0;
    for k := 0 to bits.Length
      invariant sum == SumOf(bits[..k])
    {
      assert bits[..k + 1][..k] == bits[..k];
      sum := sum + bits[k];
    }
    assert bits[..bits.Length] == bits[..];
    delta := totalBits - sum;
  }

  /** With at most four bits between the limits, the capacity is all the room there is. */
  lemma {:induction false} CapacityIsRoom(bits: seq<int>, up: bool, lo: int, hi: int)
    requires Within(bits, lo, hi) && hi - lo <= 4
    ensures Capacity(bits, up, lo, hi) == if up then Mul(|bits|, hi) - SumOf(bits) else SumOf(bits) - Mul(|bits|, lo)
  {
    if bits == [] {
      MulOne(hi);
      MulOne(lo);
    } else {
      var n := |bits| - 1;
      CapacityIsRoom(bits[..n], up, lo, hi);
      MulDistributes(hi, n, 1);
      MulDistributes(lo, n, 1);
      MulOne(hi);
      MulOne(lo);
    }
  }

  /** So every total between the limits is hit exactly, whatever the start and the order. */
  lemma NarrowRangeIsExact(bits: seq<int>, totalBits: int, lo: int, hi: int)
    requires Within(bits, lo, hi) && hi - lo <= 4 && Mul(|bits|, lo) <= totalBits <= Mul(|bits|, hi)
    ensures var delta := totalBits - SumOf(bits); Magnitude(delta) <= Capacity(bits, delta > 0, lo, hi)
  {
    hide Capacity, SumOf, Mul;
    CapacityIsRoom(bits, totalBits - SumOf(bits) > 0, lo, hi);
  }

  /** The proportional shares raw of a total, and their nearest integers: what the loop is handed. */
  ghost predicate IsRounding(raw: seq<real>, rounded: seq<int>, totalBits: int) {
    && |raw| == |rounded| && SumOfReals(raw) == totalBits as real
    && forall k :: 0 <= k < |raw| ==> raw[k] > 0.0 && -0.5 <= rounded[k] as real - raw[k] <= 0.5
  }

  ghost function SumOfReals(raw: seq<real>): real {
    if raw == [] then 0.0 else SumOfReals(raw[..|raw| - 1]) + raw[|raw| - 1]
  }

  /** With five bits between the limits a reachable total can be missed. Two bands whose energies differ by a
      factor of 2^9 have weights 1 and 10, so of 12 bits they get 12/11 and 120/11, rounded to 1 and 11. The
      second band is clipped to 6, and the first can only take four of the five bits that are left. */
  lemma WideRangeMisses()
    ensures IsRounding([12.0 / 11.0, 120.0 / 11.0], [1, 11], 12)
    ensures Mul(2, 1) <= 12 <= Mul(2, 6)
    ensures Clipped([1, 11], 1, 6) == [1, 6] && SumOf([1, 6]) == 7
    ensures Capacity([1, 6], true, 1, 6) == 4 < Magnitude(12 - SumOf([1, 6]))
  {
    var raw := [12.0 / 11.0, 120.0 / 11.0];
    assert raw[..1] == [12.0 / 11.0] && raw[..1][..0] == [];
    assert SumOfReals(raw[..1]) == 12.0 / 11.0;
    assert SumOfReals(raw) == 12.0;
    assert [1, 6][..1] == [1] && [1][..0] == [];
    assert SumOf([1]) == 1;
    assert Capacity([1], true, 1, 6) == 4;
    assert Capacity([1, 6], true, 1, 6) == 4;
  }

  /** On that start the loop ends one bit short, in either order. */
  method WideRangeRun(order: seq<int>) returns (bits: array<int>)
    requires IsPermutation(order) && |order| == 2
    ensures fresh(bits) && SumOf(bits[..]) != 12 && Magnitude(12 - SumOf(bits[..])) == 1
  {
    hide IsPermutation, SumOf, Capacity;
    bits := new int[2];
    WideRangeMisses();
    Rebalance(bits, [1, 11], 12, 1, 6, order);
  }
}
