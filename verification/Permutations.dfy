/** Permutations of [0, n) as sequences, and the in-place reorder and unreorder of the caches. */
module Permutations {
  import opened Sums

  ghost predicate IsPermutation(order: seq<int>) {
    && (forall i :: 0 <= i < |order| ==> 0 <= order[i] < |order|)
    && (forall i, k :: 0 <= i < k < |order| ==> order[i] != order[k])
    && (forall j :: 0 <= j < |order| ==> j in order)
  }

  /** Where j stands in the list. */
  ghost function IndexOf(order: seq<int>, j: int): (i: nat)
    requires j in order
    ensures i < |order| && order[i] == j
  {
    var i :| 0 <= i < |order| && order[i] == j;
    i
  }

  /** The order that moves nothing. */
  function Natural(n: nat): (order: seq<int>)
    ensures |order| == n && forall i :: 0 <= i < n ==> order[i] == i
  {
    seq(n, i => i)
  }

  lemma NaturalIsPermutation(n: nat)
    ensures IsPermutation(Natural(n))
  {
    forall j | 0 <= j < n
      ensures j in Natural(n)
    {
      assert Natural(n)[j] == j;
    }
  }

  /** A sum does not depend on the order of its terms. */
  lemma SumPermuted(order: seq<int>, f: int -> real, g: int -> real)
    requires IsPermutation(order)
    requires forall i :: 0 <= i < |order| ==> g(i) == f(order[i])
    ensures Sum(0, |order|, g) == Sum(0, |order|, f)
  {
    var n := |order|;
    var F := (i: int, j: int) => if 0 <= i < n && order[i] == j then f(j) else 0.0;
    forall i | 0 <= i < n
      ensures g(i) == Sum(0, n, (j: int) => F(i, j))
    {
      SumSingle(0, n, order[i], (j: int) => F(i, j));
    }
    forall j | 0 <= j < n
      ensures f(j) == Sum(0, n, (i: int) => F(i, j))
    {
      assert j in order;
      var at :| 0 <= at < n && order[at] == j;
      SumSingle(0, n, at, (i: int) => F(i, j));
    }
    SumSwap(0, n, 0, n, F, g, f);
  }

  /** Gather: entry i of the result is entry order[i] of the input. */
  method Reorder(a: array<real>, order: seq<int>, scratch: array<real>)
    requires a.Length == |order| == scratch.Length && a != scratch
    requires forall i :: 0 <= i < |order| ==> 0 <= order[i] < |order|
    modifies a, scratch
    ensures forall i :: 0 <= i < a.Length ==> a[i] == old(a[order[i]])
  {
    for i := 0 to a.Length
      invariant forall k :: 0 <= k < i ==> scratch[k] == old(a[order[k]])
      invariant forall k :: 0 <= k < a.Length ==> a[k] == old(a[k])
    {
      scratch[i] := a[order[i]];
    }
    forall i | 0 <= i < a.Length {
      a[i] := scratch[i];
    }
  }

  /** Scatter: entry order[i] of the result is entry i of the input. */
  method Unreorder(a: array<real>, order: seq<int>, scratch: array<real>)
    requires a.Length == |order| == scratch.Length && a != scratch
    requires IsPermutation(order)
    modifies a, scratch
    ensures forall i :: 0 <= i < a.Length ==> a[order[i]] == old(a[i])
  {
    for i := 0 to a.Length
      invariant forall k :: 0 <= k < i ==> scratch[order[k]] == old(a[k])
      invariant forall k :: 0 <= k < a.Length ==> a[k] == old(a[k])
    {
      scratch[order[i]] := a[i];
    }
    forall i | 0 <= i < a.Length {
      a[i] := scratch[i];
    }
  }

  /** Gathering what was scattered gives the original back. */
  lemma GatherAfterScatter(order: seq<int>, x: seq<real>, y: seq<real>, z: seq<real>)
    requires IsPermutation(order) && |x| == |y| == |z| == |order|
    requires forall i :: 0 <= i < |order| ==> y[order[i]] == x[i]
    requires forall i :: 0 <= i < |order| ==> z[i] == y[order[i]]
    ensures z == x
  {
  }

  /** Scattering what was gathered gives the original back. */
  lemma ScatterAfterGather(order: seq<int>, x: seq<real>, y: seq<real>, z: seq<real>)
    requires IsPermutation(order) && |x| == |y| == |z| == |order|
    requires forall i :: 0 <= i < |order| ==> y[i] == x[order[i]]
    requires forall i :: 0 <= i < |order| ==> z[order[i]] == y[i]
    ensures z == x
  {
    forall j | 0 <= j < |order|
      ensures z[j] == x[j]
    {
      assert j in order;
      var at :| 0 <= at < |order| && order[at] == j;
      assert z[order[at]] == y[at];
    }
  }
}
