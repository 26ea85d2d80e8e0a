/** Little-endian digit sequences: the common meaning of packed bytes and of the codes packed in them. */
module Digits {
  import opened IntArith

  function Pow2(k: nat): (p: nat)
    ensures p > 0
  {
    if k == 0 then 1 else 2 * Pow2(k - 1)
  }

  lemma Pow2Zero()
    ensures Pow2(0) == 1
  {
  }

  lemma Pow2Next(k: nat)
    ensures Pow2(k + 1) == Mul(2, Pow2(k))
  {
  }

  lemma {:induction false} Pow2Add(a: nat, b: nat)
    ensures Pow2(a + b) == Mul(Pow2(a), Pow2(b))
  {
    hide Pow2, Mul;
    Pow2Zero();
    MulOne(Pow2(a));
    if b > 0 {
      Pow2Add(a, b - 1);
      Pow2Next(a + b - 1);
      Pow2Next(b - 1);
      MulAssociates(2, Pow2(a), Pow2(b - 1));
      MulAssociates(Pow2(a), 2, Pow2(b - 1));
      MulCommutes(2, Pow2(a));
    }
  }

  lemma {:induction false} Pow2Mono(a: nat, b: nat)
    requires a <= b
    ensures Pow2(a) <= Pow2(b)
  {
    if a < b {
      Pow2Mono(a, b - 1);
    }
  }

  lemma Pow2Of8()
    ensures Pow2(8) == 256
  {
    assert Pow2(3) == 8;
    assert Pow2(6) == 64;
  }

  /** The bit position of digit i when digits have w bits. */
  function Place(w: nat, i: nat): nat {
    MulOrder(0, i, w);
    Mul(w, i)
  }

  lemma PlaceNext(w: nat, i: nat)
    ensures Place(w, 0) == 0
    ensures Place(w, i + 1) == Place(w, i) + w
  {
  }

  lemma PlaceMono(w: nat, i: nat, j: nat)
    requires i <= j
    ensures Place(w, i) <= Place(w, j)
  {
    MulOrder(i, j, w);
  }

  /** The weight of digit i. */
  function Weight(w: nat, i: nat): (p: nat)
    ensures p > 0
  {
    Pow2(Place(w, i))
  }

  lemma WeightIsPow2(w: nat, i: nat)
    ensures Weight(w, i) == Pow2(Place(w, i))
  {
  }

  lemma WeightStep(w: nat, i: nat)
    ensures Weight(w, 0) == 1
    ensures Weight(w, i + 1) == Mul(Pow2(w), Weight(w, i))
  {
    hide Mul, Pow2, Place, Weight;
    WeightIsPow2(w, 0);
    WeightIsPow2(w, i);
    WeightIsPow2(w, i + 1);
    PlaceNext(w, i);
    Pow2Add(w, Place(w, i));
    Pow2Zero();
  }

  /** The value of a sequence of digits of w bits each, least significant first. */
  ghost function Val(s: seq<nat>, w: nat): nat {
    if s == [] then 0
    else
      MulOrder(0, Val(s[1..], w), Pow2(w));
      s[0] + Mul(Pow2(w), Val(s[1..], w))
  }

  ghost predicate AreDigits(s: seq<nat>, w: nat) {
    forall i :: 0 <= i < |s| ==> s[i] < Pow2(w)
  }

  lemma {:induction false} ValConcat(s: seq<nat>, t: seq<nat>, w: nat)
    ensures Val(s + t, w) == Val(s, w) + Mul(Weight(w, |s|), Val(t, w))
  {
    hide Mul, Weight, Pow2;
    WeightStep(w, 0);
    if s == [] {
      assert s + t == t;
      MulOne(Val(t, w));
    } else {
      var r := s[1..];
      assert (s + t)[1..] == r + t;
      ValConcat(r, t, w);
      WeightStep(w, |r|);
      MulDistributes(Pow2(w), Val(r, w), Mul(Weight(w, |r|), Val(t, w)));
      MulAssociates(Pow2(w), Weight(w, |r|), Val(t, w));
    }
  }

  lemma ValSingle(d: nat, w: nat)
    ensures Val([d], w) == d
  {
    assert [d][1..] == [];
  }

  lemma ValAppend(s: seq<nat>, d: nat, w: nat)
    ensures Val(s + [d], w) == Val(s, w) + Mul(Weight(w, |s|), d)
  {
    hide Mul, Weight, Pow2;
    ValConcat(s, [d], w);
    ValSingle(d, w);
  }

  lemma {:induction false} ValBound(s: seq<nat>, w: nat)
    requires AreDigits(s, w)
    ensures Val(s, w) < Weight(w, |s|)
  {
    hide Mul, Weight, Pow2;
    WeightStep(w, 0);
    if s != [] {
      var r := s[1..];
      ValBound(r, w);
      WeightStep(w, |r|);
      MulOrder(Val(r, w) + 1, Weight(w, |r|), Pow2(w));
      MulDistributes(Pow2(w), Val(r, w), 1);
      MulOne(Pow2(w));
    }
  }

  lemma {:induction false} ValZero(s: seq<nat>, w: nat)
    requires forall i :: 0 <= i < |s| ==> s[i] == 0
    ensures Val(s, w) == 0
  {
    if s != [] {
      ValZero(s[1..], w);
    }
  }

  /** Splitting a value at digit i. */
  lemma ValSplit(s: seq<nat>, w: nat, i: nat)
    requires AreDigits(s, w) && i <= |s|
    ensures Shr(Val(s, w), Place(w, i)) == Val(s[i..], w)
    ensures Low(Val(s, w), Place(w, i)) == Val(s[..i], w)
  {
    hide Mul, Weight, Pow2;
    assert s == s[..i] + s[i..];
    ValConcat(s[..i], s[i..], w);
    ValBound(s[..i], w);
    WeightIsPow2(w, i);
    ShrLowUnique(Val(s, w), Place(w, i), Val(s[i..], w), Val(s[..i], w));
  }

  /** Digit i of the value. */
  lemma ValDigit(s: seq<nat>, w: nat, i: nat)
    requires AreDigits(s, w) && i < |s|
    ensures Low(Shr(Val(s, w), Place(w, i)), w) == s[i]
  {
    hide Mul, Weight, Pow2;
    ValSplit(s, w, i);
    var t := s[i..];
    assert t[0] == s[i] && t != [];
    ShrLowUnique(Val(t, w), w, Val(t[1..], w), t[0]);
  }

  /** Digits of equal value and equal length are equal. */
  lemma ValUnique(s: seq<nat>, t: seq<nat>, w: nat)
    requires |s| == |t| && AreDigits(s, w) && AreDigits(t, w) && Val(s, w) == Val(t, w)
    ensures s == t
  {
    forall i | 0 <= i < |s|
      ensures s[i] == t[i]
    {
      hide Val, Weight, Pow2;
      ValDigit(s, w, i);
      ValDigit(t, w, i);
    }
  }

  /** Replacing one digit. */
  lemma ValUpdate(s: seq<nat>, i: nat, d: nat, w: nat)
    requires i < |s|
    ensures Val(s[i := d], w) == Val(s, w) + Mul(Weight(w, i), d - s[i])
  {
    hide Mul, Weight, Pow2;
    var a, b := s[..i], s[i + 1..];
    assert s == a + ([s[i]] + b) && s[i := d] == a + ([d] + b);
    ValConcat(a, [s[i]] + b, w);
    ValConcat(a, [d] + b, w);
    assert ([s[i]] + b)[1..] == b && ([d] + b)[1..] == b;
    MulDistributes(Weight(w, i), Val([s[i]] + b, w), d - s[i]);
  }

  lemma {:induction false} ZeroValue(s: seq<nat>, w: nat)
    requires Val(s, w) == 0
    ensures forall i :: 0 <= i < |s| ==> s[i] == 0
  {
    if s != [] {
      var v := Val(s[1..], w);
      MulOrder(0, v, Pow2(w));
      if v > 0 {
        MulPos(Pow2(w), v);
      }
      ZeroValue(s[1..], w);
    }
  }

  // ---------------------------------------------------------------- bitwise or

  /** Bitwise or of two non-negative numbers. */
  function BitOr(a: nat, b: nat): nat {
    if a == 0 then b
    else if b == 0 then a
    else (if a % 2 == 1 || b % 2 == 1 then 1 else 0) + 2 * BitOr(a / 2, b / 2)
  }

  /** Where the operands share no bits, or is addition. */
  lemma {:induction false} BitOrDisjoint(a: nat, u: nat, k: nat)
    requires a < Pow2(k)
    ensures BitOr(a, u * Pow2(k)) == a + u * Pow2(k)
    decreases k
  {
    var b := u * Pow2(k);
    if k == 0 || a == 0 {
    } else if b == 0 {
    } else {
      assert b == 2 * (u * Pow2(k - 1));
      assert b % 2 == 0 && b / 2 == u * Pow2(k - 1);
      BitOrDisjoint(a / 2, u, k - 1);
    }
  }

  // ---------------------------------------------------------------- shifts and masks

  /** a << k */
  function Shl(a: nat, k: nat): nat {
    MulPositive(a, Pow2(k));
    a * Pow2(k)
  }

  lemma MulPositive(a: nat, b: nat)
    ensures a * b >= 0
  {
  }

  /** a >> k */
  function Shr(a: nat, k: nat): nat {
    QuotientNonNegative(a, Pow2(k));
    a / Pow2(k)
  }

  /** The low k bits of a. */
  function Low(a: nat, k: nat): (r: nat)
    ensures r < Pow2(k)
  {
    a % Pow2(k)
  }

  /** a = low bits + 2^k * high bits. */
  lemma ShrLow(a: nat, k: nat)
    ensures a == Mul(Pow2(k), Shr(a, k)) + Low(a, k)
  {
  }

  lemma OrShl(a: nat, u: nat, k: nat)
    requires a < Pow2(k)
    ensures BitOr(a, Shl(u, k)) == a + Mul(Pow2(k), u)
  {
    hide Pow2, BitOr;
    BitOrDisjoint(a, u, k);
  }

  lemma ShrLowUnique(x: nat, k: nat, q: nat, r: nat)
    requires x == Mul(Pow2(k), q) + r && r < Pow2(k)
    ensures Shr(x, k) == q && Low(x, k) == r
  {
    DivModUnique(x, Pow2(k), q, r);
  }

  lemma ShrShr(x: nat, a: nat, b: nat)
    ensures Shr(Shr(x, a), b) == Shr(x, a + b)
  {
    hide Pow2, Mul;
    Pow2Add(a, b);
    MulIsProduct(Pow2(a), Pow2(b));
    DivDiv(x, Pow2(a), Pow2(b));
  }

  lemma MulIsProduct(a: int, b: int)
    ensures Mul(a, b) == a * b
  {
  }

  lemma BitOrZero(a: nat)
    ensures BitOr(0, a) == a
  {
  }

  /** Multiples of a higher power do not change the low bits. */
  lemma LowAddMultiple(a: nat, r: nat, k: nat, bits: nat)
    requires bits <= k
    ensures Mul(Pow2(k), r) >= 0
    ensures Low(a + Mul(Pow2(k), r), bits) == Low(a, bits)
  {
    hide Pow2, Mul, Low, Shr;
    MulOrder(0, r, Pow2(k));
    MulOne(Pow2(k));
    MulOne(r);
    Pow2Add(bits, k - bits);
    MulAssociates(Pow2(bits), Pow2(k - bits), r);
    ShrLow(a, bits);
    var q, m := Shr(a, bits), Mul(Pow2(k - bits), r);
    MulOrder(0, r, Pow2(k - bits));
    MulOne(Pow2(k - bits));
    MulDistributes(Pow2(bits), q, m);
    ShrLowUnique(a + Mul(Pow2(k), r), bits, q + m, Low(a, bits));
  }
}
