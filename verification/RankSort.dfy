/** The insertion sorts that rank indices by a score (core/src/shannon_prime.c, `sp_shadow_calibrate_end`;
    core/src/shannon_prime_sqfree.c, `sp_knight_mask_init`). */
module RankSort {
  import opened Permutations

  /** a is ranked before b: it has the higher score, or the same one and the smaller index. */
  predicate Before(score: int -> real, a: int, b: int) {
    score(a) > score(b) || (score(a) == score(b) && a < b)
  }

  ghost predicate Ranked(order: seq<int>, score: int -> real) {
    forall i, k :: 0 <= i < k < |order| ==> Before(score, order[i], order[k])
  }

  /** The entry at position i moved down to position at. */
  ghost function Moved(order: seq<int>, i: nat, at: nat): (r: seq<int>)
    requires at <= i < |order|
    ensures |r| == |order|
  {
    order[..at] + [order[i]] + order[at..i] + order[i + 1..]
  }

  /** Where the entry at position t of Moved comes from. */
  ghost function Source(i: nat, at: nat, t: int): int {
    if t < at || t > i then t else if t == at then i else t - 1
  }

  lemma MovedAt(order: seq<int>, i: nat, at: nat, t: nat)
    requires at <= i < |order| && t < |order|
    ensures 0 <= Source(i, at, t) < |order|
    ensures Moved(order, i, at)[t] == order[Source(i, at, t)]
  {
  }

  lemma MovedMembers(order: seq<int>, i: nat, at: nat)
    requires at <= i < |order|
    ensures forall x :: x in order <==> x in Moved(order, i, at)
  {
    assert order == order[..at] + order[at..i] + [order[i]] + order[i + 1..];
  }

  lemma MovedDistinct(order: seq<int>, i: nat, at: nat)
    requires at <= i < |order| && Distinct(order)
    ensures Distinct(Moved(order, i, at))
  {
    var r := Moved(order, i, at);
    forall t, u | 0 <= t < u < |r|
      ensures r[t] != r[u]
    {
      MovedAt(order, i, at, t);
      MovedAt(order, i, at, u);
    }
  }

  ghost predicate Distinct(order: seq<int>) {
    forall i, k :: 0 <= i < |order| && 0 <= k < |order| && i != k ==> order[i] != order[k]
  }

  /** The first i entries are ranked and hold the smallest positions of a list sorted by index. */
  ghost predicate PrefixRanked(order: seq<int>, original: seq<int>, score: int -> real, i: nat) {
    && i <= |order| == |original|
    && Ranked(order[..i], score)
    && order[i..] == original[i..]
    && forall t :: 0 <= t < i ==> order[t] in original[..i]
  }

  ghost predicate Increasing(order: seq<int>) {
    forall i, k :: 0 <= i < k < |order| ==> order[i] < order[k]
  }

  lemma InsertKeepsRanked(order: seq<int>, original: seq<int>, score: int -> real, i: nat, at: nat)
    requires PrefixRanked(order, original, score, i) && i < |order| && at <= i && Increasing(original)
    requires forall t :: at <= t < i ==> score(order[t]) < score(order[i])
    requires at > 0 ==> score(order[at - 1]) >= score(order[i])
    ensures PrefixRanked(Moved(order, i, at), original, score, i + 1)
  {
    hide Moved, Increasing;
    var r, key := Moved(order, i, at), order[i];
    assert key == order[i..][0] == original[i..][0] == original[i];
    forall t, u | 0 <= t < u < i + 1
      ensures Before(score, r[t], r[u])
    {
      MovedAt(order, i, at, t);
      MovedAt(order, i, at, u);
      var a, b := Source(i, at, t), Source(i, at, u);
      if t == at {
        assert at <= b < i;
      } else if u == at {
        OlderIsSmaller(order, original, score, i, a);
        assert a == at - 1 || Before(score, order[..i][a], order[..i][at - 1]);
      } else {
        assert Before(score, order[..i][a], order[..i][b]);
      }
    }
    forall t | 0 <= t < i + 1
      ensures r[t] in original[..i + 1]
    {
      MovedAt(order, i, at, t);
      var a := Source(i, at, t);
      if a < i {
        assert order[a] in original[..i];
      }
      assert original[..i + 1] == original[..i] + [original[i]];
    }
    forall t | i + 1 <= t < |r|
      ensures r[t] == original[t]
    {
      MovedAt(order, i, at, t);
      assert order[i..][t - i] == original[i..][t - i];
    }
  }

  lemma OlderIsSmaller(order: seq<int>, original: seq<int>, score: int -> real, i: nat, a: nat)
    requires PrefixRanked(order, original, score, i) && a < i < |order| && Increasing(original)
    ensures order[a] < original[i]
  {
    assert order[a] in original[..i];
  }

  lemma RankedIsDescending(order: seq<int>, score: int -> real)
    requires Ranked(order, score)
    ensures forall i, k :: 0 <= i < k < |order| ==>
              score(order[i]) > score(order[k]) || (score(order[i]) == score(order[k]) && order[i] < order[k])
  {
  }

  /** Sort a list of increasing indices by descending score, ties by index. */
  method RankDescending(order: array<int>, n: nat, score: int -> real)
    requires n <= order.Length && Increasing(order[..n])
    modifies order
    ensures Ranked(order[..n], score)
    ensures forall i, k :: 0 <= i < k < n ==>
              score(order[i]) > score(order[k]) || (score(order[i]) == score(order[k]) && order[i] < order[k])
    ensures forall x :: x in order[..n] <==> x in old(order[..n])
    ensures Distinct(order[..n])
    ensures order[n..] == old(order[n..])
  {
    ghost var original := order[..n];
    for i := 0 to n
      invariant PrefixRanked(order[..n], original, score, i)
      invariant forall x :: x in order[..n] <==> x in original
      invariant Distinct(order[..n])
      invariant order[n..] == old(order[n..])
    {
      ghost var before := order[..n];
      var at := InsertOne(order, n, i, score);
      assert order[..n] == Moved(before, i, at);
      InsertKeepsRanked(before, original, score, i, at);
      MovedMembers(before, i, at);
      MovedDistinct(before, i, at);
    }
    assert order[..n][..n] == order[..n];
    RankedIsDescending(order[..n], score);
  }

  /** Shift lower-scored entries up and drop entry i into the gap. */
  method InsertOne(order: array<int>, n: nat, i: nat, score: int -> real) returns (at: nat)
    requires i < n <= order.Length
    modifies order
    ensures at <= i && order[..n] == Moved(old(order[..n]), i, at)
    ensures order[n..] == old(order[n..])
    ensures forall t :: at <= t < i ==> score(old(order[t])) < score(old(order[i]))
    ensures at > 0 ==> score(old(order[at - 1])) >= score(old(order[i]))
  {
    hide Moved;
    var key := order[i];
    var kv := score(key);
    var j := i - 1;
    while j >= 0 && score(order[j]) < kv
      invariant -1 <= j < i
      invariant forall t :: 0 <= t <= j ==> order[t] == old(order[t])
      invariant forall t :: j + 2 <= t <= i ==> order[t] == old(order[t - 1])
      invariant forall t :: i < t < order.Length ==> order[t] == old(order[t])
      invariant forall t :: j < t < i ==> score(old(order[t])) < kv
    {
      order[j + 1] := order[j];
      j := j - 1;
    }
    order[j + 1] := key;
    at := j + 1;
    ShiftIsMoved(old(order[..n]), order[..n], i, at);
  }

  lemma ShiftIsMoved(before: seq<int>, after: seq<int>, i: nat, at: nat)
    requires at <= i < |before| == |after| && after[at] == before[i]
    requires forall t :: 0 <= t < at || i < t < |before| ==> after[t] == before[t]
    requires forall t :: at < t <= i ==> after[t] == before[t - 1]
    ensures after == Moved(before, i, at)
  {
    forall t | 0 <= t < |after|
      ensures after[t] == Moved(before, i, at)[t]
    {
      MovedAt(before, i, at, t);
    }
  }

  /** Ranking all indices below n yields a permutation. */
  lemma RankingIsPermutation(order: seq<int>, n: nat)
    requires |order| == n && Distinct(order) && forall x :: x in order <==> 0 <= x < n
    ensures IsPermutation(order)
  {
    forall i | 0 <= i < n
      ensures 0 <= order[i] < n
    {
      assert order[i] in order;
    }
  }
}
