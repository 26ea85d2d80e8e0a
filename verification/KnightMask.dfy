/** The Knight mask of the squarefree path (core/src/shannon_prime_sqfree.c, `sp_knight_mask_init`): the
    coefficients stored directly (the skeleton), those predicted (the residual), and the compressed rows
    of the Möbius predictor. Index i stands for the number i + 1. */
module KnightMasks {
  import opened Mobius
  import opened MobiusMasks
  import opened Permutations
  import opened Primes
  import opened RankSort
  import opened RealArith
  import opened Sums

  datatype Option<T> = None | Some(value: T)

  /** Mu of each index's number. */
  ghost function Marks(n: nat): (mu: seq<int>)
    ensures |mu| == n && forall i :: 0 <= i < n ==> mu[i] == Mu(i + 1)
  {
    seq(n, i requires 0 <= i < n => Mu(i + 1))
  }

  ghost predicate Squarefree(i: int) {
    i >= 0 && Mu(i + 1) != 0
  }

  /** The total order of the choice: squarefree first, then by score, then by index. */
  ghost predicate Preferred(score: int -> real, i: int, j: int) {
    if Squarefree(i) == Squarefree(j) then Before(score, i, j) else Squarefree(i)
  }

  /** The skeleton is the top min(skK, pad) of that order, listed by index. */
  ghost predicate IsSkeleton(skel: seq<int>, pad: nat, skK: nat, score: int -> real) {
    && Increasing(skel)
    && |skel| == (if skK < pad then skK else pad)
    && (forall i :: i in skel ==> 0 <= i < pad)
    && (forall i, j :: i in skel && 0 <= j < pad && j !in skel ==> Preferred(score, i, j))
  }

  ghost predicate IsResidual(res: seq<int>, skel: seq<int>, pad: nat) {
    && Increasing(res)
    && forall i :: i in res <==> 0 <= i < pad && Mu(i + 1) == 0 && i !in skel
  }

  /** In words: every index chosen is squarefree where one left out is not, or of the same kind and of higher
      score, or of the same score and smaller. */
  lemma SkeletonIsBest(skel: seq<int>, pad: nat, skK: nat, score: int -> real, i: int, j: int)
    requires IsSkeleton(skel, pad, skK, score) && i in skel && 0 <= j < pad && j !in skel
    ensures |skel| == (if skK < pad then skK else pad) && 0 <= i < pad
    ensures || (Mu(i + 1) != 0 && Mu(j + 1) == 0)
            || ((Mu(i + 1) == 0 <==> Mu(j + 1) == 0) && (score(i) > score(j) || (score(i) == score(j) && i < j)))
  {
    hide Mu;
    assert Preferred(score, i, j);
  }

  // ---------------------------------------------------------------- coefficients in neither set

  /** The squarefree indices below pad. */
  ghost function SquarefreeBelow(pad: nat): (r: set<int>)
    ensures forall i :: i in r <==> 0 <= i < pad && Squarefree(i)
    ensures |r| <= pad
  {
    hide Squarefree;
    var r := set i: int | 0 <= i < pad && Squarefree(i);
    BelowIsSmall(r, pad);
    r
  }

  lemma {:induction false} BelowIsSmall(r: set<int>, pad: nat)
    requires forall i :: i in r ==> 0 <= i < pad
    ensures |r| <= pad
    decreases pad
  {
    if pad > 0 {
      BelowIsSmall(r - {pad - 1}, pad - 1);
    } else {
      assert forall i :: i !in r;
    }
  }

  /** A squarefree index that the skeleton leaves out: it is not predicted either. */
  ghost predicate IsOrphan(i: int, skel: seq<int>, pad: nat) {
    0 <= i < pad && Squarefree(i) && i !in skel
  }

  ghost function Members(list: seq<int>): set<int> {
    set i | i in list
  }

  lemma {:induction false} MembersOfIncreasing(list: seq<int>)
    requires Increasing(list)
    ensures |Members(list)| == |list|
  {
    if list != [] {
      var init, last := list[..|list| - 1], list[|list| - 1];
      MembersOfIncreasing(init);
      forall i | i in init
        ensures i != last
      {
        var k :| 0 <= k < |init| && init[k] == i;
        assert list[k] < list[|list| - 1];
      }
      assert list == init + [last];
      assert Members(list) == Members(init) + {last};
    } else {
      assert Members(list) == {};
    }
  }

  /** Some squarefree index is in neither set exactly when the skeleton asked for is smaller than the number
      of squarefree indices. */
  lemma OrphansExist(skel: seq<int>, res: seq<int>, pad: nat, skK: nat, score: int -> real)
    requires IsSkeleton(skel, pad, skK, score) && IsResidual(res, skel, pad)
    ensures (exists i :: IsOrphan(i, skel, pad)) <==> skK < |SquarefreeBelow(pad)|
    ensures forall i :: IsOrphan(i, skel, pad) <==> 0 <= i < pad && i !in skel && i !in res
  {
    hide Mu, Before, Increasing;
    MembersOfIncreasing(skel);
    var all, chosen := SquarefreeBelow(pad), Members(skel);
    if skK < |all| {
      if all <= chosen {
        SubsetSize(all, chosen);
      } else {
        var i :| i in all && i !in chosen;
        assert IsOrphan(i, skel, pad);
      }
    } else if i :| IsOrphan(i, skel, pad) {
      forall j | j in chosen
        ensures j in all - {i}
      {
        assert Preferred(score, j, i);
      }
      SubsetSize(chosen, all - {i});
    }
  }

  lemma SubsetSize(a: set<int>, b: set<int>)
    requires a <= b
    ensures |a| <= |b|
  {
    assert b == a + (b - a);
  }

  /** The default mask of dimension six, with half of it as skeleton, leaves squarefree indices out: 1, 2, 3
      and 5 are squarefree, and only three of them fit. */
  lemma DefaultMaskHasOrphan(skel: seq<int>, res: seq<int>, score: int -> real)
    requires IsSkeleton(skel, 6, 3, score) && IsResidual(res, skel, 6)
    ensures exists i :: IsOrphan(i, skel, 6)
  {
    hide Mu;
    SquarefreePrimes();
    assert Squarefree(0) && Squarefree(1) && Squarefree(2) && Squarefree(4);
    SubsetSize({0, 1, 2, 4}, SquarefreeBelow(6));
    OrphansExist(skel, res, 6, 3, score);
  }

  lemma SquarefreePrimes()
    ensures Mu(1) != 0 && Mu(2) != 0 && Mu(3) != 0 && Mu(5) != 0
  {
    hide HasSquareDivisor, PrimeDivisors;
    MuOfOne();
    assert !Divides(2, 3) && !Divides(2, 5) && !Divides(3, 5) && !Divides(4, 5);
    MuOfPrime(2);
    MuOfPrime(3);
    MuOfPrime(5);
  }

  // ---------------------------------------------------------------- choosing the skeleton

  /** The two lists of the source: squarefree and composite indices below n. */
  method Partition(n: nat) returns (sqf: array<int>, comp: array<int>, nSqf: nat, nComp: nat)
    ensures fresh(sqf) && fresh(comp) && sqf != comp && sqf.Length == comp.Length == n
    ensures nSqf <= n && nComp <= n
    ensures sqf[..nSqf] == Select(Marks(n), true, n) && comp[..nComp] == Select(Marks(n), false, n)
  {
    hide Mu, Select;
    sqf, comp := new int[n], new int[n];
    nSqf, nComp := 0, 0;
    SelectStart(Marks(n));
    for i := 0 to n
      invariant nSqf + nComp == i
      invariant sqf[..nSqf] == Select(Marks(n), true, i) && comp[..nComp] == Select(Marks(n), false, i)
    {
      var mu := MobiusVal(i + 1);
      SelectStep(Marks(n), i);
      if mu != 0 {
        sqf[nSqf] := i;
        nSqf := nSqf + 1;
        assert sqf[..nSqf] == sqf[..nSqf - 1] + [i];
      } else {
        comp[nComp] := i;
        nComp := nComp + 1;
        assert comp[..nComp] == comp[..nComp - 1] + [i];
      }
    }
  }

  function Scores(variance: Option<seq<real>>): int -> real {
    match variance
    case None => (i: int) => 0.0
    case Some(v) => (i: int) => if 0 <= i < |v| then v[i] else 0.0
  }

  lemma IncreasingIsRanked(order: seq<int>)
    requires Increasing(order)
    ensures Ranked(order, Scores(None)) && Distinct(order)
  {
  }

  /** Rank a list of increasing indices; without variances it stays in index order. */
  method Rank(order: array<int>, n: nat, variance: Option<seq<real>>)
    requires n <= order.Length && Increasing(order[..n])
    modifies order
    ensures Ranked(order[..n], Scores(variance)) && Distinct(order[..n])
    ensures forall x :: x in order[..n] <==> x in old(order[..n])
  {
    if variance.Some? {
      RankDescending(order, n, Scores(variance));
    } else {
      IncreasingIsRanked(order[..n]);
    }
  }

  /** The entries of a list before its first k are ranked above the ones after. */
  lemma PrefixFirst(order: seq<int>, score: int -> real, k: nat, i: int, j: int)
    requires Ranked(order, score) && k <= |order| && i in order[..k] && j in order && j !in order[..k]
    ensures Before(score, i, j)
  {
    var a := IndexOf(order[..k], i);
    var b := IndexOf(order, j);
    if b < k {
      InPrefix(order, b, k);
    }
  }

  lemma InPrefix(order: seq<int>, b: nat, k: nat)
    requires b < k <= |order|
    ensures order[b] in order[..k]
  {
    assert order[b] == order[..k][b];
  }

  /** Squarefree picks, filled up with composites, are the most preferred indices. */
  lemma PicksPreferred(sqf: seq<int>, comp: seq<int>, score: int -> real, kSqf: nat, extra: nat, i: int, j: int)
    requires Ranked(sqf, score) && Ranked(comp, score) && kSqf <= |sqf| && extra <= |comp|
    requires extra > 0 ==> kSqf == |sqf|
    requires forall x :: x in sqf ==> Squarefree(x)
    requires forall x :: x in comp ==> !Squarefree(x)
    requires i in sqf[..kSqf] || i in comp[..extra]
    requires j in sqf || j in comp
    requires j !in sqf[..kSqf] && j !in comp[..extra]
    ensures Preferred(score, i, j)
  {
    if i in sqf[..kSqf] {
      assert i in sqf;
      if j in sqf {
        PrefixFirst(sqf, score, kSqf, i, j);
      }
    } else {
      assert i in comp;
      assert sqf[..kSqf] == sqf;
      PrefixFirst(comp, score, extra, i, j);
    }
  }

  /** Ascending order is descending order of the opposites. */
  function Opposite(x: int): real {
    -(x as real)
  }

  /** Sort distinct indices ascending. */
  method SortAscending(a: array<int>)
    requires Distinct(a[..])
    modifies a
    ensures Increasing(a[..])
    ensures forall x :: x in a[..] <==> x in old(a[..])
  {
    hide Moved;
    for i := 0 to a.Length
      invariant Increasing(a[..i]) && Distinct(a[..])
      invariant forall x :: x in a[..] <==> x in old(a[..])
    {
      ghost var before := a[..];
      assert a[..a.Length] == a[..];
      var at := InsertOne(a, a.Length, i, Opposite);
      assert a[..a.Length] == a[..];
      MovedMembers(before, i, at);
      MovedDistinct(before, i, at);
      InsertAscending(before, i, at);
    }
    assert a[..a.Length] == a[..];
  }

  lemma InsertAscending(order: seq<int>, i: nat, at: nat)
    requires at <= i < |order| && Increasing(order[..i]) && Distinct(order)
    requires forall t :: at <= t < i ==> Opposite(order[t]) < Opposite(order[i])
    requires at > 0 ==> Opposite(order[at - 1]) >= Opposite(order[i])
    ensures Increasing(Moved(order, i, at)[..i + 1])
  {
    hide Moved;
    var r := Moved(order, i, at)[..i + 1];
    forall t, u | 0 <= t < u < i + 1
      ensures r[t] < r[u]
    {
      MovedAt(order, i, at, t);
      MovedAt(order, i, at, u);
      var a, b := Source(i, at, t), Source(i, at, u);
      if t != at && u != at {
        assert order[..i][a] < order[..i][b];
      } else if u == at {
        assert order[at - 1] != order[i];
        assert a == at - 1 || order[..i][a] < order[..i][at - 1];
      }
    }
  }

  /** The lists of squarefree and of composite indices, ranked. */
  method RankedLists(pad: nat, variance: Option<seq<real>>) returns (sqf: array<int>, comp: array<int>, nSqf: nat, nComp: nat)
    ensures fresh(sqf) && fresh(comp) && sqf != comp && nSqf <= sqf.Length && nComp <= comp.Length && nSqf + nComp == pad
    ensures IsRankedList(sqf[..nSqf], pad, true, Scores(variance)) && IsRankedList(comp[..nComp], pad, false, Scores(variance))
  {
    hide Ranked, Distinct, Squarefree, Before, Select, Scores, Increasing;
    sqf, comp, nSqf, nComp := Partition(pad);
    ghost var a0, b0 := sqf[..nSqf], comp[..nComp];
    PartitionFacts(pad, a0, b0);
    Rank(sqf, nSqf, variance);
    assert comp[..nComp] == b0;
    Rank(comp, nComp, variance);
  }

  /** All indices of one kind, ranked. */
  ghost predicate IsRankedList(list: seq<int>, pad: nat, squarefree: bool, score: int -> real) {
    && Ranked(list, score) && Distinct(list)
    && forall x :: x in list <==> 0 <= x < pad && Squarefree(x) == squarefree
  }

  method PickSkeleton(pad: nat, skK: nat, variance: Option<seq<real>>) returns (skel: array<int>)
    ensures fresh(skel) && IsSkeleton(skel[..], pad, skK, Scores(variance))
  {
    hide IsRankedList, Scores, IsSkeleton, Distinct, Increasing;
    var sqf, comp, nSqf, nComp := RankedLists(pad, variance);
    ghost var a, b := sqf[..nSqf], comp[..nComp];
    var kSqf: nat := if skK < nSqf then skK else nSqf;
    var extra: nat := skK - kSqf;
    if extra > nComp {
      extra := nComp;
    }
    skel := new int[kSqf + extra];
    forall i | 0 <= i < kSqf {
      skel[i] := sqf[i];
    }
    forall i | 0 <= i < extra {
      skel[kSqf + i] := comp[i];
    }
    ghost var joined := a[..kSqf] + b[..extra];
    assert forall i :: 0 <= i < kSqf ==> skel[i] == a[i] == joined[i];
    assert forall i :: 0 <= i < extra ==> skel[kSqf + i] == b[i] == joined[kSqf + i];
    assert skel[..] == joined;
    JoinDistinct(a, b, kSqf, extra, pad, Scores(variance));
    SortAscending(skel);
    ChosenIsSkeleton(a, b, kSqf, extra, skel[..], pad, skK, Scores(variance));
  }

  /** The two lists hold every index once, by whether it is squarefree. */
  lemma PartitionFacts(pad: nat, a: seq<int>, b: seq<int>)
    requires a == Select(Marks(pad), true, pad) && b == Select(Marks(pad), false, pad)
    ensures Increasing(a) && Increasing(b) && |a| + |b| == pad
    ensures forall x :: x in a <==> 0 <= x < pad && Squarefree(x)
    ensures forall x :: x in b <==> 0 <= x < pad && !Squarefree(x)
  {
    hide Mu;
    SelectMembers(Marks(pad), true, pad);
    SelectMembers(Marks(pad), false, pad);
    SelectSizes(Marks(pad), pad);
  }

  lemma JoinDistinct(a: seq<int>, b: seq<int>, k: nat, l: nat, pad: nat, score: int -> real)
    requires IsRankedList(a, pad, true, score) && IsRankedList(b, pad, false, score) && k <= |a| && l <= |b|
    ensures Distinct(a[..k] + b[..l])
  {
    hide Ranked, Squarefree;
    var r := a[..k] + b[..l];
    forall i, j | 0 <= i < |r| && 0 <= j < |r| && i != j
      ensures r[i] != r[j]
    {
      assert i < k ==> r[i] == a[i] && r[i] in a;
      assert j < k ==> r[j] == a[j] && r[j] in a;
      assert i >= k ==> r[i] == b[i - k] && r[i] in b;
      assert j >= k ==> r[j] == b[j - k] && r[j] in b;
    }
  }

  lemma ChosenIsSkeleton(a: seq<int>, b: seq<int>, kSqf: nat, extra: nat, skel: seq<int>, pad: nat, skK: nat, score: int -> real)
    requires IsRankedList(a, pad, true, score) && IsRankedList(b, pad, false, score) && |a| + |b| == pad
    requires kSqf == (if skK < |a| then skK else |a|) && extra == (if skK - kSqf > |b| then |b| else skK - kSqf)
    requires Increasing(skel) && |skel| == kSqf + extra && forall x :: x in skel <==> x in a[..kSqf] + b[..extra]
    ensures IsSkeleton(skel, pad, skK, score)
  {
    hide Ranked, Preferred, Squarefree, Increasing;
    forall x | x in skel
      ensures 0 <= x < pad
    {
      assert x in a || x in b;
    }
    forall i, j | i in skel && 0 <= j < pad && j !in skel
      ensures Preferred(score, i, j)
    {
      PicksPreferred(a, b, score, kSqf, extra, i, j);
    }
  }

  // ---------------------------------------------------------------- residual and rows

  /** The lookup tables of the source: membership, and slot or -1. */
  method Lookup(skel: array<int>, pad: nat) returns (inSkel: array<bool>, slot: array<int>)
    requires Increasing(skel[..]) && forall i :: i in skel[..] ==> 0 <= i < pad
    ensures fresh(inSkel) && fresh(slot) && inSkel.Length == slot.Length == pad
    ensures IsLookup(skel[..], inSkel[..], slot[..])
  {
    inSkel, slot := new bool[pad](_ => false), new int[pad](_ => -1);
    hide IsLookup, Increasing;
    ghost var all := skel[..];
    SkeletonDistinct(all);
    for s := 0 to skel.Length
      invariant forall i :: 0 <= i < pad ==> inSkel[i] == (slot[i] != -1)
      invariant forall i :: 0 <= i < pad && slot[i] != -1 ==> 0 <= slot[i] < s && all[slot[i]] == i
      invariant forall k :: 0 <= k < s ==> 0 <= all[k] < pad && slot[all[k]] == k
    {
      assert all[s] in all;
      inSkel[skel[s]] := true;
      slot[skel[s]] := s;
    }
    LookupDone(all, inSkel[..], slot[..]);
  }

  lemma SkeletonDistinct(skel: seq<int>)
    requires Increasing(skel)
    ensures forall i, k :: 0 <= i < k < |skel| ==> skel[i] != skel[k]
  {
  }

  ghost predicate IsLookup(skel: seq<int>, inSkel: seq<bool>, slot: seq<int>) {
    && |inSkel| == |slot|
    && forall i :: 0 <= i < |slot| ==> inSkel[i] == (i in skel) && slot[i] == if i in skel then IndexOf(skel, i) else -1
  }

  lemma LookupDone(skel: seq<int>, inSkel: seq<bool>, slot: seq<int>)
    requires Increasing(skel) && |inSkel| == |slot|
    requires forall i :: 0 <= i < |slot| ==> inSkel[i] == (slot[i] != -1)
    requires forall i :: 0 <= i < |slot| && slot[i] != -1 ==> 0 <= slot[i] < |skel| && skel[slot[i]] == i
    requires forall k :: 0 <= k < |skel| ==> 0 <= skel[k] < |slot| && slot[skel[k]] == k
    ensures IsLookup(skel, inSkel, slot)
  {
    forall i | 0 <= i < |slot|
      ensures inSkel[i] == (i in skel) && slot[i] == if i in skel then IndexOf(skel, i) else -1
    {
      if i in skel {
        assert slot[skel[IndexOf(skel, i)]] == IndexOf(skel, i);
      }
    }
  }

  method Residuals(pad: nat, inSkel: array<bool>, ghost skel: seq<int>) returns (res: array<int>)
    requires inSkel.Length == pad && forall i :: 0 <= i < pad ==> inSkel[i] == (i in skel)
    ensures fresh(res) && IsResidual(res[..], skel, pad)
  {
    hide Mu;
    var buffer := new int[pad];
    var n: nat := 0;
    for i := 0 to pad
      invariant n <= i && Increasing(buffer[..n])
      invariant forall x :: x in buffer[..n] <==> 0 <= x < i && Mu(x + 1) == 0 && x !in skel
    {
      var mu := MobiusVal(i + 1);
      if mu == 0 && !inSkel[i] {
        ghost var before := buffer[..n];
        assert forall k :: 0 <= k < n ==> before[k] in before;
        buffer[n] := i;
        n := n + 1;
        assert buffer[..n] == before + [i];
      }
    }
    ghost var list := buffer[..n];
    assert forall x :: x in list <==> 0 <= x < pad && Mu(x + 1) == 0 && x !in skel;
    res := new int[n];
    forall k | 0 <= k < n {
      res[k] := buffer[k];
    }
    assert res[..] == list;
  }

  datatype Term = Term(slot: nat, sign: int)

  /** Divisor d of n contributes to n's prediction. */
  ghost predicate IsTerm(n: nat, skel: seq<int>, d: int) {
    d >= 1 && n % d == 0 && Mu(d) != 0 && n / d - 1 in skel
  }

  /** The row of number n: its contributing divisors up to `upto`, ascending. */
  ghost function Terms(n: nat, skel: seq<int>, upto: nat): seq<Term> {
    if upto == 0 then []
    else Terms(n, skel, upto - 1)
         + if IsTerm(n, skel, upto) then [Term(IndexOf(skel, n / upto - 1), Mu(upto))] else []
  }

  ghost function Row(skel: seq<int>, i: int): seq<Term>
    requires i >= 0
  {
    Terms(i + 1, skel, i + 1)
  }

  /** The rows of the first k residual indices, one after another. */
  ghost function Rows(res: seq<int>, skel: seq<int>, k: nat): seq<Term>
    requires k <= |res| && forall i :: i in res ==> i >= 0
  {
    if k == 0 then [] else Rows(res, skel, k - 1) + (assert res[k - 1] in res; Row(skel, res[k - 1]))
  }

  lemma {:induction false} RowsPrefix(res: seq<int>, skel: seq<int>, k: nat, l: nat)
    requires k <= l <= |res| && forall i :: i in res ==> i >= 0
    ensures Rows(res, skel, k) <= Rows(res, skel, l)
    decreases l
  {
    if k < l {
      RowsPrefix(res, skel, k, l - 1);
    }
  }

  /** What the source's test of a divisor finds. */
  method TestDivisor(n: nat, d: nat, pad: nat, slot: array<int>, ghost skel: seq<int>, ghost inSkel: seq<bool>)
      returns (taken: bool, term: Term)
    requires 1 <= d <= n && slot.Length == pad && |inSkel| == pad && IsLookup(skel, inSkel, slot[..])
    requires forall i :: i in skel ==> 0 <= i < pad
    ensures taken <==> IsTerm(n, skel, d)
    ensures taken ==> term == Term(IndexOf(skel, n / d - 1), Mu(d))
  {
    hide Mu;
    taken, term := false, Term(0, 0);
    if n % d == 0 {
      var mu := MobiusVal(d);
      if mu != 0 {
        var q := n / d;
        if q - 1 >= 0 && q - 1 < pad && slot[q - 1] >= 0 {
          taken, term := true, Term(slot[q - 1], mu);
        }
      }
    }
  }

  /** First pass: the offsets of the rows. */
  method CountTerms(res: array<int>, pad: nat, slot: array<int>, ghost skel: seq<int>, ghost inSkel: seq<bool>)
      returns (offsets: array<int>, total: nat)
    requires slot.Length == pad && |inSkel| == pad && IsLookup(skel, inSkel, slot[..])
    requires forall i :: i in skel ==> 0 <= i < pad
    requires forall i :: i in res[..] ==> 0 <= i < pad
    ensures fresh(offsets) && offsets.Length == res.Length + 1
    ensures OffsetsAre(offsets[..], res[..], skel) && total == offsets[res.Length]
  {
    hide Mu, IsTerm, IsLookup, Rows;
    ghost var row := res[..];
    offsets := new int[res.Length + 1];
    total := 0;
    NoRows(row, skel);
    for r := 0 to res.Length
      invariant total == RowsLength(row, skel, r)
      invariant forall k :: 0 <= k < r ==> offsets[k] == RowsLength(row, skel, k)
    {
      assert row[r] in row;
      offsets[r] := total;
      var count := CountRow(res[r] + 1, pad, slot, skel, inSkel);
      NextLength(row, skel, r);
      total := total + count;
    }
    offsets[res.Length] := total;
  }

  ghost function RowsLength(res: seq<int>, skel: seq<int>, k: nat): nat
    requires k <= |res| && forall i :: i in res ==> i >= 0
  {
    |Rows(res, skel, k)|
  }

  /** Offset k is where row k starts. */
  ghost predicate OffsetsAre(offsets: seq<int>, res: seq<int>, skel: seq<int>)
    requires forall i :: i in res ==> i >= 0
  {
    |offsets| == |res| + 1 && forall k :: 0 <= k <= |res| ==> offsets[k] == RowsLength(res, skel, k)
  }

  lemma NoRows(res: seq<int>, skel: seq<int>)
    requires forall i :: i in res ==> i >= 0
    ensures RowsLength(res, skel, 0) == 0
  {
  }

  lemma NextLength(res: seq<int>, skel: seq<int>, k: nat)
    requires k < |res| && forall i :: i in res ==> i >= 0
    ensures res[k] in res
    ensures RowsLength(res, skel, k + 1) == RowsLength(res, skel, k) + |Terms(res[k] + 1, skel, res[k] + 1)|
  {
    hide Terms;
    assert res[k] in res;
  }

  method CountRow(n: nat, pad: nat, slot: array<int>, ghost skel: seq<int>, ghost inSkel: seq<bool>) returns (count: nat)
    requires slot.Length == pad && |inSkel| == pad && IsLookup(skel, inSkel, slot[..])
    requires forall i :: i in skel ==> 0 <= i < pad
    ensures count == |Terms(n, skel, n)|
  {
    hide Mu, IsTerm, IsLookup;
    count := 0;
    for d := 1 to n + 1
      invariant count == |Terms(n, skel, d - 1)|
    {
      var taken, _ := TestDivisor(n, d, pad, slot, skel, inSkel);
      if taken {
        count := count + 1;
      }
    }
  }

  /** Second pass: the terms themselves. */
  method FillTerms(res: array<int>, pad: nat, slot: array<int>, total: nat, ghost skel: seq<int>, ghost inSkel: seq<bool>)
      returns (skelSlot: array<nat>, muSign: array<int>)
    requires slot.Length == pad && |inSkel| == pad && IsLookup(skel, inSkel, slot[..])
    requires forall i :: i in skel ==> 0 <= i < pad
    requires forall i :: i in res[..] ==> 0 <= i < pad
    requires total == |Rows(res[..], skel, res.Length)|
    ensures fresh(skelSlot) && fresh(muSign) && skelSlot.Length == muSign.Length == total
    ensures TermsAre(skelSlot[..], muSign[..], Rows(res[..], skel, res.Length))
  {
    hide Mu, IsTerm, IsLookup;
    skelSlot, muSign := new nat[total], new int[total];
    var at: nat := 0;
    ghost var row := res[..];
    for r := 0 to res.Length
      invariant at == |Rows(row, skel, r)| <= total
      invariant TermsAre(skelSlot[..at], muSign[..at], Rows(row, skel, r))
    {
      assert row[r] in row;
      RowsPrefix(row, skel, r + 1, res.Length);
      at := FillRow(res[r] + 1, pad, slot, at, skelSlot, muSign, skel, inSkel, Rows(row, skel, r));
    }
    assert skelSlot[..total] == skelSlot[..] && muSign[..total] == muSign[..];
  }

  ghost predicate TermsAre(skelSlot: seq<nat>, muSign: seq<int>, terms: seq<Term>) {
    |skelSlot| == |muSign| == |terms| && forall t :: 0 <= t < |terms| ==> terms[t] == Term(skelSlot[t], muSign[t])
  }

  lemma TermsAreNext(skelSlot: seq<nat>, muSign: seq<int>, terms: seq<Term>, skelSlot': seq<nat>, muSign': seq<int>, term: Term)
    requires TermsAre(skelSlot, muSign, terms)
    requires skelSlot' == skelSlot + [term.slot] && muSign' == muSign + [term.sign]
    ensures TermsAre(skelSlot', muSign', terms + [term])
  {
  }

  method FillRow(n: nat, pad: nat, slot: array<int>, start: nat, skelSlot: array<nat>, muSign: array<int>,
                 ghost skel: seq<int>, ghost inSkel: seq<bool>, ghost before: seq<Term>) returns (at: nat)
    requires slot.Length == pad && |inSkel| == pad && IsLookup(skel, inSkel, slot[..])
    requires forall i :: i in skel ==> 0 <= i < pad
    requires start == |before| && start + |Terms(n, skel, n)| <= skelSlot.Length == muSign.Length
    requires slot != muSign && TermsAre(skelSlot[..start], muSign[..start], before)
    modifies skelSlot, muSign
    ensures at == start + |Terms(n, skel, n)|
    ensures TermsAre(skelSlot[..at], muSign[..at], before + Terms(n, skel, n))
  {
    hide Mu, IsTerm, IsLookup, TermsAre;
    at := start;
    assert before + Terms(n, skel, 0) == before;
    for d := 1 to n + 1
      invariant slot[..] == old(slot[..])
      invariant at == start + |Terms(n, skel, d - 1)| <= skelSlot.Length
      invariant TermsAre(skelSlot[..at], muSign[..at], before + Terms(n, skel, d - 1))
    {
      var taken, term := TestDivisor(n, d, pad, slot, skel, inSkel);
      TermsGrow(n, skel, d, n);
      if taken {
        ghost var s0, m0 := skelSlot[..at], muSign[..at];
        skelSlot[at], muSign[at] := term.slot, term.sign;
        assert skelSlot[..at + 1] == s0 + [term.slot] && muSign[..at + 1] == m0 + [term.sign];
        TermsAreNext(s0, m0, before + Terms(n, skel, d - 1), skelSlot[..at + 1], muSign[..at + 1], term);
        assert before + Terms(n, skel, d) == before + Terms(n, skel, d - 1) + [term];
        at := at + 1;
      } else {
        assert Terms(n, skel, d) == Terms(n, skel, d - 1);
      }
    }
  }

  lemma {:induction false} TermsGrow(n: nat, skel: seq<int>, a: nat, b: nat)
    requires a <= b
    ensures |Terms(n, skel, a)| <= |Terms(n, skel, b)|
    decreases b
  {
    hide IsTerm;
    if a < b {
      TermsGrow(n, skel, a, b - 1);
    }
  }

  // ---------------------------------------------------------------- the mask

  class KnightMask {
    const padDim: nat
    const skeletonIdx: array<int>
    const residualIdx: array<int>
    const csrOffsets: array<int>
    const csrSkelSlot: array<nat>
    const csrMuSign: array<int>
    var residualBits: nat
    var useSpinor: bool

    /** The skeleton is the best choice of its size for the score; the rest follows from it. */
    ghost predicate Valid(skK: nat, score: int -> real)
      reads this, skeletonIdx, residualIdx, csrOffsets, csrSkelSlot, csrMuSign
    {
      && IsSkeleton(skeletonIdx[..], padDim, skK, score)
      && ValidRows()
    }

    ghost predicate ValidRows()
      reads this, skeletonIdx, residualIdx, csrOffsets, csrSkelSlot, csrMuSign
    {
      && Increasing(skeletonIdx[..]) && (forall i :: i in skeletonIdx[..] ==> 0 <= i < padDim)
      && IsResidual(residualIdx[..], skeletonIdx[..], padDim)
      && OffsetsAre(csrOffsets[..], residualIdx[..], skeletonIdx[..])
      && TermsAre(csrSkelSlot[..], csrMuSign[..], Rows(residualIdx[..], skeletonIdx[..], residualIdx.Length))
    }

    constructor (padDim: nat, skK: nat, variance: Option<seq<real>>)
      ensures Valid(skK, Scores(variance)) && this.padDim == padDim
      ensures residualBits == 3 && useSpinor
      ensures fresh(skeletonIdx) && fresh(residualIdx) && fresh(csrOffsets) && fresh(csrSkelSlot) && fresh(csrMuSign)
    {
      hide Mu, Preferred, Rows, Scores, IsLookup;
      var skel := PickSkeleton(padDim, skK, variance);
      var inSkel, slot := Lookup(skel, padDim);
      LookupMembers(skel[..], inSkel[..], slot[..]);
      var res := Residuals(padDim, inSkel, skel[..]);
      var offsets, total := CountTerms(res, padDim, slot, skel[..], inSkel[..]);
      var skelSlot, muSign := FillTerms(res, padDim, slot, total, skel[..], inSkel[..]);
      this.padDim, skeletonIdx, residualIdx, csrOffsets := padDim, skel, res, offsets;
      csrSkelSlot, csrMuSign := skelSlot, muSign;
      residualBits, useSpinor := 3, true;
    }
  }

  lemma LookupMembers(skel: seq<int>, inSkel: seq<bool>, slot: seq<int>)
    requires IsLookup(skel, inSkel, slot)
    ensures |inSkel| == |slot| && forall i :: 0 <= i < |slot| ==> inSkel[i] == (i in skel)
  {
  }

  // ---------------------------------------------------------------- the prediction

  /** The sum a row stands for. */
  ghost function RowSum(terms: seq<Term>, v: int -> real): real {
    if terms == [] then 0.0
    else
      var last := terms[|terms| - 1];
      RowSum(terms[..|terms| - 1], v) + Times(last.sign as real, v(last.slot))
  }

  /** Mu(d) times the skeleton value of n / d, where that is in the skeleton. */
  ghost function DivisorTerm(n: nat, skel: seq<int>, v: int -> real, d: int): real {
    if d >= 1 && n % d == 0 && n / d - 1 in skel then Times(Mu(d) as real, v(IndexOf(skel, n / d - 1))) else 0.0
  }

  lemma {:induction false} TermsSum(n: nat, skel: seq<int>, v: int -> real, upto: nat, f: int -> real)
    requires forall d :: 1 <= d <= upto ==> f(d) == DivisorTerm(n, skel, v, d)
    ensures RowSum(Terms(n, skel, upto), v) == Sum(1, upto + 1, f)
  {
    hide DivisorTerm, Terms, RowSum;
    if upto == 0 {
      NoTerms(n, skel, v);
    } else {
      TermsSum(n, skel, v, upto - 1, f);
      assert f(upto) == DivisorTerm(n, skel, v, upto);
      OneTerm(n, skel, v, upto);
    }
  }

  lemma NoTerms(n: nat, skel: seq<int>, v: int -> real)
    ensures RowSum(Terms(n, skel, 0), v) == 0.0
  {
  }

  lemma OneTerm(n: nat, skel: seq<int>, v: int -> real, d: nat)
    requires d > 0
    ensures RowSum(Terms(n, skel, d), v) == RowSum(Terms(n, skel, d - 1), v) + DivisorTerm(n, skel, v, d)
  {
    hide Mu, RowSum, Times;
    var rest := Terms(n, skel, d - 1);
    if IsTerm(n, skel, d) {
      RowSumAppend(rest, Term(IndexOf(skel, n / d - 1), Mu(d)), v);
    } else {
      assert Terms(n, skel, d) == rest + [] == rest;
      if n % d == 0 && n / d - 1 in skel {
        ZeroTimes(Mu(d), v(IndexOf(skel, n / d - 1)));
      }
    }
  }

  lemma RowSumAppend(rest: seq<Term>, term: Term, v: int -> real)
    ensures RowSum(rest + [term], v) == RowSum(rest, v) + Times(term.sign as real, v(term.slot))
  {
    assert (rest + [term])[..|rest|] == rest;
  }

  lemma ZeroTimes(m: int, x: real)
    requires m == 0
    ensures Times(m as real, x) == 0.0
  {
  }

  /** The row of residual index i sums Mu(d) times the skeleton value of n / d over the divisors d of
      n = i + 1 whose quotient is in the skeleton. */
  lemma RowPredicts(skel: seq<int>, i: nat, v: int -> real, f: int -> real)
    requires forall d :: 1 <= d <= i + 1 ==>
               f(d) == if (i + 1) % d == 0 && (i + 1) / d - 1 in skel
                       then Mu(d) as real * v(IndexOf(skel, (i + 1) / d - 1)) else 0.0
    ensures RowSum(Row(skel, i), v) == Sum(1, i + 2, f)
  {
    hide Mu;
    TermsSum(i + 1, skel, v, i + 1, f);
  }

  /** Row k lies between its offsets. */
  lemma RowAt(res: seq<int>, skel: seq<int>, k: nat)
    requires k < |res| && forall i :: i in res ==> i >= 0
    ensures res[k] >= 0
    ensures |Rows(res, skel, k)| <= |Rows(res, skel, k + 1)| <= |Rows(res, skel, |res|)|
    ensures Rows(res, skel, |res|)[|Rows(res, skel, k)|..|Rows(res, skel, k + 1)|] == Row(skel, res[k])
  {
    assert res[k] in res;
    RowsPrefix(res, skel, k + 1, |res|);
    var all, a, b := Rows(res, skel, |res|), Rows(res, skel, k), Rows(res, skel, k + 1);
    assert all[..|b|] == b;
    assert b == a + Row(skel, res[k]);
    assert all[|a|..|b|] == b[|a|..];
  }
}
