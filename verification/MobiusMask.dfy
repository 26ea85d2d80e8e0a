/** The squarefree-first permutation of `sp_mobius_mask_init` (core/src/shannon_prime.c). */
module MobiusMasks {
  import opened Mobius
  import opened Permutations
  import opened Primes

  /** Indices below m whose mark is non-zero (keep) or zero (!keep), ascending. */
  ghost function Select(mu: seq<int>, keep: bool, m: nat): seq<int>
    requires m <= |mu|
  {
    if m == 0 then []
    else Select(mu, keep, m - 1) + (if (mu[m - 1] != 0) == keep then [m - 1] else [])
  }

  lemma {:induction false} SelectMembers(mu: seq<int>, keep: bool, m: nat)
    requires m <= |mu|
    ensures forall j :: j in Select(mu, keep, m) <==> 0 <= j < m && (mu[j] != 0) == keep
    ensures forall i :: 0 <= i < |Select(mu, keep, m)| ==> Select(mu, keep, m)[i] in Select(mu, keep, m)
    ensures forall i, k :: 0 <= i < k < |Select(mu, keep, m)| ==> Select(mu, keep, m)[i] < Select(mu, keep, m)[k]
  {
    if m > 0 {
      SelectMembers(mu, keep, m - 1);
    }
  }

  lemma {:induction false} SelectSizes(mu: seq<int>, m: nat)
    requires m <= |mu|
    ensures |Select(mu, true, m)| + |Select(mu, false, m)| == m
  {
    if m > 0 {
      SelectSizes(mu, m - 1);
    }
  }

  lemma {:induction false} SelectGrows(mu: seq<int>, keep: bool, i: nat, m: nat)
    requires i <= m <= |mu|
    ensures |Select(mu, keep, i)| <= |Select(mu, keep, m)|
    decreases m
  {
    if i < m {
      SelectGrows(mu, keep, i, m - 1);
    }
  }

  /** Both selections, one after the other, list every index once. */
  lemma SelectionIsPermutation(mu: seq<int>)
    ensures IsPermutation(Select(mu, true, |mu|) + Select(mu, false, |mu|))
  {
    var n, a, b := |mu|, Select(mu, true, |mu|), Select(mu, false, |mu|);
    SelectMembers(mu, true, n);
    SelectMembers(mu, false, n);
    SelectSizes(mu, n);
    var order := a + b;
    forall i | 0 <= i < |order|
      ensures 0 <= order[i] < |order|
    {
      assert order[i] in a || order[i] in b;
    }
    forall i, k | 0 <= i < k < |order|
      ensures order[i] != order[k]
    {
      if i < |a| <= k {
        assert order[i] in a && order[k] in b;
      }
    }
    forall j | 0 <= j < |order|
      ensures j in order
    {
      assert j in a || j in b;
    }
  }

  class MobiusMask {
    const n: nat
    var mu: array<int>
    var order: array<int>
    var nSquarefree: nat

    /** The mask of its length: mu by definition, order a permutation with the squarefree indices first. */
    ghost predicate Valid()
      reads this, mu, order
    {
      && mu.Length == order.Length == n > 0
      && mu[0] == 0 && (forall i :: 1 <= i < n ==> mu[i] == Mu(i))
      && IsPermutation(order[..])
      && nSquarefree <= n
      && (forall i :: 0 <= i < nSquarefree ==> mu[order[i]] != 0)
      && (forall i :: nSquarefree <= i < n ==> mu[order[i]] == 0)
      && (forall i, k :: 0 <= i < k < nSquarefree ==> order[i] < order[k])
      && (forall i, k :: nSquarefree <= i < k < n ==> order[i] < order[k])
    }

    constructor (n: nat)
      requires n > 0
      ensures Valid() && this.n == n && fresh(mu) && fresh(order)
    {
      this.n := n;
      this.mu := new int[n];
      this.order := new int[n];
      this.nSquarefree := 0;
      new;
      ComputeMobius(mu);
      BuildOrder();
    }

    method BuildOrder()
      requires mu.Length == order.Length == n && mu != order
      requires n > 0 && mu[0] == 0 && forall i :: 1 <= i < n ==> mu[i] == Mu(i)
      modifies this`nSquarefree, order
      ensures Valid()
    {
      hide Select, IsPermutation;
      nSquarefree := CountNonZero(mu);
      FillOrder(mu, order, nSquarefree);
      SelectionIsPermutation(mu[..]);
      SelectSizes(mu[..], n);
      SelectionOrder(mu[..], order[..], nSquarefree);
    }
  }

  method CountNonZero(mu: array<int>) returns (sf: nat)
    ensures sf == |Select(mu[..], true, mu.Length)|
  {
    sf := 0;
    for i := 0 to mu.Length
      invariant sf == |Select(mu[..], true, i)|
    {
      if mu[i] != 0 {
        sf := sf + 1;
      }
    }
  }

  method FillOrder(mu: array<int>, order: array<int>, sf: nat)
    requires mu.Length == order.Length && mu != order && sf == |Select(mu[..], true, mu.Length)|
    modifies order
    ensures order[..] == Select(mu[..], true, mu.Length) + Select(mu[..], false, mu.Length)
  {
    hide Select;
    var n := mu.Length;
    ghost var m := mu[..];
    SelectSizes(m, n);
    SelectStart(m);
    var posSf, posNsf := 0, sf;
    for i := 0 to n
      invariant m == mu[..]
      invariant posSf == |Select(m, true, i)| <= sf && posNsf == sf + |Select(m, false, i)| <= n
      invariant order[..posSf] == Select(m, true, i)
      invariant order[sf..posNsf] == Select(m, false, i)
    {
      SelectStep(m, i);
      SelectGrows(m, true, i + 1, n);
      SelectGrows(m, false, i + 1, n);
      if mu[i] != 0 {
        order[posSf] := i;
        posSf := posSf + 1;
      } else {
        order[posNsf] := i;
        posNsf := posNsf + 1;
      }
    }
    assert order[..] == order[..sf] + order[sf..n];
  }

  lemma SelectStart(mu: seq<int>)
    ensures Select(mu, true, 0) == [] == Select(mu, false, 0)
  {
  }

  lemma SelectStep(mu: seq<int>, i: nat)
    requires i < |mu|
    ensures Select(mu, true, i + 1) == Select(mu, true, i) + (if mu[i] != 0 then [i] else [])
    ensures Select(mu, false, i + 1) == Select(mu, false, i) + (if mu[i] != 0 then [] else [i])
  {
  }

  lemma SelectionOrder(mu: seq<int>, order: seq<int>, sf: nat)
    requires order == Select(mu, true, |mu|) + Select(mu, false, |mu|) && |order| == |mu|
    requires sf == |Select(mu, true, |mu|)|
    ensures forall i :: 0 <= i < |mu| ==> 0 <= order[i] < |mu|
    ensures forall i :: 0 <= i < sf ==> mu[order[i]] != 0
    ensures forall i :: sf <= i < |mu| ==> mu[order[i]] == 0
    ensures forall i, k :: 0 <= i < k < sf ==> order[i] < order[k]
    ensures forall i, k :: sf <= i < k < |mu| ==> order[i] < order[k]
  {
    hide Select;
    var n := |mu|;
    var a, b := Select(mu, true, n), Select(mu, false, n);
    SelectMembers(mu, true, n);
    SelectMembers(mu, false, n);
    forall i | 0 <= i < n
      ensures i < sf ==> order[i] in a
      ensures i >= sf ==> order[i] in b
    {
      if i < sf {
        assert order[i] == a[i];
      } else {
        assert order[i] == b[i - sf];
      }
    }
    forall i, k | sf <= i < k < n
      ensures order[i] < order[k]
    {
      assert order[i] == b[i - sf] && order[k] == b[k - sf];
    }
  }
}
