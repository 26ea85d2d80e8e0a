/** The reset controller (core/src/shannon_prime_cauchy.c): the Ricci sentinel's drift average, the Mertens
    oracle's schedule and risk cache, and the controller that decides when the cache is rebuilt. Positions
    are assumed small enough not to overflow; floats are reals. */
module Cauchy {
  import opened IntArith
  import opened RealArith
  import opened Sums

  // ---------------------------------------------------------------- the sentinel

  /** Exponential average: the first sample, then a step of alpha towards each next one. */
  ghost function Ema(alpha: real, samples: seq<real>): real {
    if samples == [] then 1.0
    else if |samples| == 1 then samples[0]
    else Times(alpha, samples[|samples| - 1]) + Times(1.0 - alpha, Ema(alpha, samples[..|samples| - 1]))
  }

  /** The average stays between bounds on the samples. */
  lemma {:induction false} EmaWithin(alpha: real, samples: seq<real>, lo: real, hi: real)
    requires 0.0 <= alpha <= 1.0 && samples != []
    requires forall k :: 0 <= k < |samples| ==> lo <= samples[k] <= hi
    ensures lo <= Ema(alpha, samples) <= hi
  {
    if |samples| > 1 {
      var init, x := samples[..|samples| - 1], samples[|samples| - 1];
      EmaWithin(alpha, init, lo, hi);
      Between(alpha, x, Ema(alpha, init), lo, hi);
    }
  }

  ghost function Power(base: real, n: nat): real {
    if n == 0 then 1.0 else Times(base, Power(base, n - 1))
  }

  /** What sample k weighs in an average of n: alpha, faded once for every later sample; the first has the
      whole rest. */
  ghost function Fading(alpha: real, n: nat, k: int): real
    requires 0 <= k < n
  {
    Times(if k == 0 then 1.0 else alpha, Power(1.0 - alpha, n - 1 - k))
  }

  /** The average in closed form. */
  lemma {:induction false} EmaIsWeighted(alpha: real, samples: seq<real>, f: int -> real)
    requires samples != [] && forall k :: 0 <= k < |samples| ==> f(k) == Times(Fading(alpha, |samples|, k), samples[k])
    ensures Ema(alpha, samples) == Sum(0, |samples|, f)
  {
    hide Fading, Times, Ema, Sum;
    var n := |samples|;
    EmaStep(alpha, samples);
    if n == 1 {
      FirstWeight(alpha);
      SumSingle(0, 1, 0, f);
    } else {
      var init, rest := samples[..n - 1], 1.0 - alpha;
      var g := (k: int) => if 0 <= k < n - 1 then Times(Fading(alpha, n - 1, k), init[k]) else 0.0;
      EmaIsWeighted(alpha, init, g);
      forall k | 0 <= k < n - 1
        ensures f(k) == rest * g(k)
      {
        FadesOnce(alpha, n, k);
        Faded(rest, Fading(alpha, n - 1, k), samples[k]);
      }
      SumScale(0, n - 1, rest, g, f);
      LastWeight(alpha, n);
      SumLast(n, f);
      TimesIs(rest, Sum(0, n - 1, g));
    }
  }

  lemma EmaStep(alpha: real, samples: seq<real>)
    requires samples != []
    ensures var n := |samples|;
            Ema(alpha, samples) == if n == 1 then samples[0]
                                   else Times(alpha, samples[n - 1]) + Times(1.0 - alpha, Ema(alpha, samples[..n - 1]))
  {
  }

  lemma SumLast(n: nat, f: int -> real)
    requires n > 0
    ensures Sum(0, n, f) == Sum(0, n - 1, f) + f(n - 1)
  {
  }

  lemma TimesIs(a: real, b: real)
    ensures Times(a, b) == a * b
  {
  }

  lemma FirstWeight(alpha: real)
    ensures forall x :: Times(Fading(alpha, 1, 0), x) == x
  {
  }

  lemma FadesOnce(alpha: real, n: nat, k: nat)
    requires k < n - 1
    ensures Fading(alpha, n, k) == Times(1.0 - alpha, Fading(alpha, n - 1, k))
  {
    var a, p := if k == 0 then 1.0 else alpha, Power(1.0 - alpha, n - 2 - k);
    assert Power(1.0 - alpha, n - 1 - k) == Times(1.0 - alpha, p);
    assert Times(a, Times(1.0 - alpha, p)) == Times(1.0 - alpha, Times(a, p));
  }

  lemma Faded(rest: real, w: real, x: real)
    ensures Times(Times(rest, w), x) == rest * Times(w, x)
  {
  }

  lemma LastWeight(alpha: real, n: nat)
    requires n > 1
    ensures Fading(alpha, n, n - 1) == alpha
  {
  }

  lemma Between(alpha: real, x: real, y: real, lo: real, hi: real)
    requires 0.0 <= alpha <= 1.0 && lo <= x <= hi && lo <= y <= hi
    ensures lo <= Times(alpha, x) + Times(1.0 - alpha, y) <= hi
  {
    hide Times;
    TimesBetween(alpha, lo, x, hi);
    TimesBetween(1.0 - alpha, lo, y, hi);
    Shares(alpha, lo);
    Shares(alpha, hi);
  }

  lemma TimesBetween(c: real, lo: real, x: real, hi: real)
    requires c >= 0.0 && lo <= x <= hi
    ensures Times(c, lo) <= Times(c, x) <= Times(c, hi)
  {
    ScaleMono(c, lo, x);
    ScaleMono(c, x, hi);
  }

  lemma Shares(alpha: real, v: real)
    ensures Times(alpha, v) + Times(1.0 - alpha, v) == v
  {
  }

  ghost function SumSquares(v: seq<real>): real {
    if v == [] then 0.0 else SumSquares(v[..|v| - 1]) + Times(v[|v| - 1], v[|v| - 1])
  }

  lemma NoSquares()
    ensures SumSquares([]) == 0.0
  {
  }

  lemma NextSquare(v: seq<real>, i: nat)
    requires i < |v|
    ensures SumSquares(v[..i + 1]) == SumSquares(v[..i]) + Times(v[i], v[i])
  {
    hide Times;
    assert v[..i + 1][..i] == v[..i];
  }

  class RicciSentinel {
    const p3BandOffset: nat
    const p3BandSize: nat
    const emaAlpha: real
    const metricCriticality: real
    const warmupSamples: nat
    var calibP3Sum: real
    var calibN: nat
    var p3EnergyCalibrated: real
    var calibrated: bool
    var p3Ema: real
    var nSamples: nat
    var resetRecommended: bool
    /** Energy ratios seen since the last reset or calibration. */
    ghost var ratios: seq<real>

    ghost predicate Valid()
      reads this
    {
      && nSamples == |ratios| && p3Ema == Ema(emaAlpha, ratios)
      && (resetRecommended ==> nSamples > warmupSamples && Abs(1.0 - p3Ema) > metricCriticality)
    }

    constructor (p3BandOffset: nat, p3BandSize: nat, emaAlpha: real, metricCriticality: real, warmupSamples: nat)
      ensures Valid() && !calibrated && !resetRecommended && ratios == []
    {
      this.p3BandOffset, this.p3BandSize, this.emaAlpha := p3BandOffset, p3BandSize, emaAlpha;
      this.metricCriticality, this.warmupSamples := metricCriticality, warmupSamples;
      calibP3Sum, calibN, p3EnergyCalibrated, calibrated := 0.0, 0, 0.0, false;
      p3Ema, nSamples, resetRecommended, ratios := 1.0, 0, false, [];
    }

    /** Energy of the band, or zero when the vector does not reach it. */
    ghost function Energy(coeffs: seq<real>): real {
      if p3BandOffset + p3BandSize > |coeffs| then 0.0
      else SumSquares(coeffs[p3BandOffset..p3BandOffset + p3BandSize])
    }

    method ComputeP3Energy(coeffs: seq<real>) returns (energy: real)
      ensures energy == Energy(coeffs)
    {
      if p3BandOffset + p3BandSize > |coeffs| {
        return 0.0;
      }
      hide Times, SumSquares;
      NoSquares();
      energy := 0.0;
      ghost var band := coeffs[p3BandOffset..p3BandOffset + p3BandSize];
      for i := 0 to p3BandSize
        invariant energy == SumSquares(band[..i])
      {
        NextSquare(band, i);
        energy := energy + Times(coeffs[p3BandOffset + i], coeffs[p3BandOffset + i]);
      }
      assert band[..p3BandSize] == band;
    }

    method CalibrateFeed(coeffs: seq<real>)
      modifies this`calibP3Sum, this`calibN
      ensures calibP3Sum == old(calibP3Sum) + Energy(coeffs) && calibN == old(calibN) + 1
    {
      var e := ComputeP3Energy(coeffs);
      calibP3Sum := calibP3Sum + e;
      calibN := calibN + 1;
    }

    method CalibrateEnd()
      requires Valid()
      modifies this
      ensures Valid() && calibrated && ratios == [] && !resetRecommended && calibN == 0 && calibP3Sum == 0.0
      ensures p3EnergyCalibrated == if old(calibN) > 0 then old(calibP3Sum) / old(calibN) as real else 1.0
    {
      p3EnergyCalibrated := if calibN > 0 then calibP3Sum / calibN as real else 1.0;
      calibrated := true;
      p3Ema, nSamples, resetRecommended := 1.0, 0, false;
      calibP3Sum, calibN := 0.0, 0;
      ratios := [];
    }

    /** One sample: the recommendation is the drift test on the average, once enough samples are in. */
    method Check(coeffs: seq<real>) returns (recommend: bool)
      requires Valid()
      modifies this`p3Ema, this`nSamples, this`resetRecommended, this`ratios
      ensures Valid()
      ensures !calibrated || p3EnergyCalibrated <= 0.0 ==>
                !recommend && ratios == old(ratios) && resetRecommended == old(resetRecommended)
      ensures calibrated && p3EnergyCalibrated > 0.0 ==>
                && ratios == old(ratios) + [Energy(coeffs) / p3EnergyCalibrated]
                && recommend == resetRecommended
                && (recommend <==> |ratios| > warmupSamples && Abs(1.0 - Ema(emaAlpha, ratios)) > metricCriticality)
    {
      if !calibrated || p3EnergyCalibrated <= 0.0 {
        return false;
      }
      var e := ComputeP3Energy(coeffs);
      var ratio := e / p3EnergyCalibrated;
      assert (ratios + [ratio])[..|ratios|] == ratios;
      ratios := ratios + [ratio];
      if nSamples == 0 {
        p3Ema := ratio;
      } else {
        p3Ema := Times(emaAlpha, ratio) + Times(1.0 - emaAlpha, p3Ema);
      }
      nSamples := nSamples + 1;
      if nSamples <= warmupSamples {
        resetRecommended := false;
        return false;
      }
      resetRecommended := Abs(1.0 - p3Ema) > metricCriticality;
      return resetRecommended;
    }

    method Reset()
      requires Valid()
      modifies this`p3Ema, this`nSamples, this`resetRecommended, this`ratios
      ensures Valid() && ratios == [] && !resetRecommended
    {
      p3Ema, nSamples, resetRecommended := 1.0, 0, false;
      ratios := [];
    }
  }

  /** While every ratio stays within the criticality of one, nothing is ever recommended. */
  lemma StableNeverRecommended(alpha: real, criticality: real, ratios: seq<real>)
    requires 0.0 <= alpha <= 1.0 && criticality >= 0.0
    requires forall k :: 0 <= k < |ratios| ==> Abs(1.0 - ratios[k]) <= criticality
    ensures Abs(1.0 - Ema(alpha, ratios)) <= criticality
  {
    if ratios != [] {
      EmaWithin(alpha, ratios, 1.0 - criticality, 1.0 + criticality);
    }
  }

  // ---------------------------------------------------------------- the oracle

  /** High-risk positions, ascending, with risks between zero and one. */
  ghost predicate IsSchedule(schedule: seq<int>, risk: seq<real>, maxCtx: int) {
    && |schedule| == |risk|
    && (forall i, k :: 0 <= i < k < |schedule| ==> schedule[i] < schedule[k])
    && (forall i :: 0 <= i < |schedule| ==> 0 <= schedule[i] <= maxCtx)
    && (forall i :: 0 <= i < |risk| ==> 0.0 <= risk[i] <= 1.0)
  }

  const REACH: int := 8

  function Distance(a: int, b: int): nat {
    if a >= b then a - b else b - a
  }

  /** A position's risk, decayed with distance and gone at eight. */
  function Decayed(risk: real, distance: nat): real {
    Times(risk, 1.0 - distance as real / 8.0)
  }

  /** v is the largest decayed risk of a scheduled position within reach of pos, or zero. */
  ghost predicate IsPeakRisk(schedule: seq<int>, risk: seq<real>, pos: int, v: real)
    requires |schedule| == |risk|
  {
    && v >= 0.0
    && (forall i :: 0 <= i < |schedule| && Distance(schedule[i], pos) <= REACH ==> Decayed(risk[i], Distance(schedule[i], pos)) <= v)
    && (v == 0.0 || exists i :: 0 <= i < |schedule| && Distance(schedule[i], pos) <= REACH && v == Decayed(risk[i], Distance(schedule[i], pos)))
  }

  /** v is the peak risk over the entries before n, and of entry n up to distance d. */
  ghost predicate PeakSoFar(schedule: seq<int>, risk: seq<real>, n: nat, d: int, pos: int, v: real)
    requires |schedule| == |risk|
  {
    && v >= 0.0
    && (forall i :: 0 <= i < |schedule| && Counted(schedule, n, d, pos, i) ==> Decayed(risk[i], Distance(schedule[i], pos)) <= v)
    && (v == 0.0 || exists i :: 0 <= i < |schedule| && Counted(schedule, n, d, pos, i) && v == Decayed(risk[i], Distance(schedule[i], pos)))
  }

  predicate Counted(schedule: seq<int>, n: nat, d: int, pos: int, i: int)
    requires 0 <= i < |schedule|
  {
    (i < n && Distance(schedule[i], pos) <= REACH) || (i == n && Distance(schedule[i], pos) < d)
  }

  /** Raise a cache entry to at least val. */
  method RaiseTo(cache: array<real>, at: int, val: real)
    requires 0 <= at < cache.Length
    modifies cache
    ensures cache[at] == if val > old(cache[at]) then val else old(cache[at])
    ensures forall q :: 0 <= q < cache.Length && q != at ==> cache[q] == old(cache[q])
  {
    if val > cache[at] {
      cache[at] := val;
    }
  }

  /** One distance of one scheduled position: both neighbours at that distance are raised. */
  method BakeDistance(cache: array<real>, schedule: seq<int>, risk: seq<real>, maxCtx: int, i: nat, diff: nat)
    requires IsSchedule(schedule, risk, maxCtx) && cache.Length == maxCtx + 1 && i < |schedule| && diff <= 8
    requires forall q :: 0 <= q <= maxCtx ==> PeakSoFar(schedule, risk, i, diff, q, cache[q])
    modifies cache
    ensures forall q :: 0 <= q <= maxCtx ==> PeakSoFar(schedule, risk, i, diff + 1, q, cache[q])
  {
    hide Decayed, PeakSoFar;
    var p := schedule[i];
    ghost var before := cache[..];
    var val := Decayed(risk[i], diff);
    if p + diff <= maxCtx {
      RaiseTo(cache, p + diff, val);
    }
    if p - diff >= 0 {
      RaiseTo(cache, p - diff, val);
    }
    forall q | 0 <= q <= maxCtx
      ensures PeakSoFar(schedule, risk, i, diff + 1, q, cache[q])
    {
      assert PeakSoFar(schedule, risk, i, diff, q, before[q]);
      PeakStep(schedule, risk, i, diff, q, before[q], cache[q]);
    }
  }

  lemma PeakStep(schedule: seq<int>, risk: seq<real>, i: nat, diff: nat, q: int, v: real, w: real)
    requires |schedule| == |risk| && i < |schedule| && diff <= 8 && PeakSoFar(schedule, risk, i, diff, q, v)
    requires w == if Distance(schedule[i], q) == diff && Decayed(risk[i], diff) > v then Decayed(risk[i], diff) else v
    ensures PeakSoFar(schedule, risk, i, diff + 1, q, w)
  {
    hide Decayed;
    forall k | 0 <= k < |schedule|
      ensures Counted(schedule, i, diff + 1, q, k) <==> Counted(schedule, i, diff, q, k) || (k == i && Distance(schedule[i], q) == diff)
    {
    }
  }

  lemma NothingCounted(schedule: seq<int>, risk: seq<real>, pos: int)
    requires |schedule| == |risk|
    ensures PeakSoFar(schedule, risk, 0, 0, pos, 0.0)
  {
  }

  /** All distances of an entry done: on to the next. */
  lemma EntryDone(schedule: seq<int>, risk: seq<real>, i: nat, pos: int, v: real)
    requires |schedule| == |risk| && i < |schedule| && PeakSoFar(schedule, risk, i, 9, pos, v)
    ensures PeakSoFar(schedule, risk, i + 1, 0, pos, v)
  {
    hide Decayed;
    forall k | 0 <= k < |schedule|
      ensures Counted(schedule, i + 1, 0, pos, k) <==> Counted(schedule, i, 9, pos, k)
    {
    }
  }

  lemma AllCounted(schedule: seq<int>, risk: seq<real>, pos: int, v: real)
    requires |schedule| == |risk| && PeakSoFar(schedule, risk, |schedule|, 0, pos, v)
    ensures IsPeakRisk(schedule, risk, pos, v)
  {
    hide Decayed;
    forall k | 0 <= k < |schedule|
      ensures Counted(schedule, |schedule|, 0, pos, k) <==> Distance(schedule[k], pos) <= REACH
    {
    }
  }

  // ---------------------------------------------------------------- off the cache

  predicate InReach(schedule: seq<int>, pos: int, i: int)
    requires 0 <= i < |schedule|
  {
    Distance(schedule[i], pos) <= REACH
  }

  /** From index i on, the first entry at or after pos, or the last one. */
  function Landing(schedule: seq<int>, pos: int, i: nat): (lo: nat)
    requires i < |schedule|
    ensures i <= lo < |schedule|
    decreases |schedule| - i
  {
    if i == |schedule| - 1 || schedule[i] >= pos then i else Landing(schedule, pos, i + 1)
  }

  lemma {:induction false} LandingIs(schedule: seq<int>, pos: int, i: nat, lo: nat)
    requires i <= lo < |schedule| && forall k :: i <= k < lo ==> schedule[k] < pos
    requires lo == |schedule| - 1 || schedule[lo] >= pos
    ensures Landing(schedule, pos, i) == lo
    decreases lo - i
  {
    if i < lo {
      LandingIs(schedule, pos, i + 1, lo);
    }
  }

  lemma {:induction false} LandingFacts(schedule: seq<int>, pos: int, i: nat)
    requires i < |schedule|
    ensures forall k :: i <= k < Landing(schedule, pos, i) ==> schedule[k] < pos
    ensures schedule[Landing(schedule, pos, i)] >= pos || Landing(schedule, pos, i) == |schedule| - 1
    decreases |schedule| - i
  {
    if i < |schedule| - 1 && schedule[i] < pos {
      LandingFacts(schedule, pos, i + 1);
    }
  }

  /** The neighbour the search settles on: the one before the landing point if within reach, else that. */
  function Neighbour(schedule: seq<int>, pos: int): (f: nat)
    requires schedule != []
    ensures f < |schedule|
  {
    var lo := Landing(schedule, pos, 0);
    if lo > 0 && InReach(schedule, pos, lo - 1) then lo - 1 else lo
  }

  /** The risk reported outside the cached range. */
  function SearchedRisk(schedule: seq<int>, risk: seq<real>, pos: int): real
    requires |schedule| == |risk|
  {
    if schedule == [] || !InReach(schedule, pos, Neighbour(schedule, pos)) then 0.0
    else Decayed(risk[Neighbour(schedule, pos)], Distance(schedule[Neighbour(schedule, pos)], pos))
  }

  /** If anything is within reach, the neighbour is. */
  lemma NearestFirst(schedule: seq<int>, risk: seq<real>, maxCtx: int, pos: int)
    requires IsSchedule(schedule, risk, maxCtx) && schedule != []
    ensures forall i :: 0 <= i < |schedule| && InReach(schedule, pos, i) ==> InReach(schedule, pos, Neighbour(schedule, pos))
  {
    var lo: int := Landing(schedule, pos, 0);
    LandingFacts(schedule, pos, 0);
    forall i: int | 0 <= i < |schedule| && InReach(schedule, pos, i)
      ensures InReach(schedule, pos, Neighbour(schedule, pos))
    {
      if i < lo - 1 {
        assert schedule[i] < schedule[lo - 1];
      } else if i > lo {
        assert schedule[lo] < schedule[i];
      }
    }
  }

  /** The risk found by the search is the peak exactly when no position within reach has a greater decayed
      risk than the neighbour; in particular when nothing is within reach. */
  lemma SearchedIsPeak(schedule: seq<int>, risk: seq<real>, maxCtx: int, pos: int)
    requires IsSchedule(schedule, risk, maxCtx)
    ensures IsPeakRisk(schedule, risk, pos, SearchedRisk(schedule, risk, pos))
            <==> forall i :: 0 <= i < |schedule| && InReach(schedule, pos, i) ==>
                   var f := Neighbour(schedule, pos);
                   Decayed(risk[i], Distance(schedule[i], pos)) <= Decayed(risk[f], Distance(schedule[f], pos))
  {
    hide Decayed, Neighbour;
    if schedule != [] {
      NearestFirst(schedule, risk, maxCtx, pos);
      var f := Neighbour(schedule, pos);
      if InReach(schedule, pos, f) {
        DecayedNonNegative(risk[f], Distance(schedule[f], pos));
      }
    }
  }

  lemma DecayedNonNegative(risk: real, distance: nat)
    requires risk >= 0.0 && distance <= 8
    ensures Decayed(risk, distance) >= 0.0
  {
    ScaleMono(risk, 0.0, 1.0 - distance as real / 8.0);
  }

  /** A position past the cached range where the two differ: the search settles on the fainter neighbour. */
  lemma SearchMissesPeak()
    ensures IsSchedule([99, 100], [0.1, 1.0], 100)
    ensures SearchedRisk([99, 100], [0.1, 1.0], 101) == 0.075
    ensures IsPeakRisk([99, 100], [0.1, 1.0], 101, 0.875)
    ensures !IsPeakRisk([99, 100], [0.1, 1.0], 101, 0.075)
  {
    var schedule, risk := [99, 100], [0.1, 1.0];
    assert Landing(schedule, 101, 0) == 1 && Neighbour(schedule, 101) == 0;
    assert Decayed(risk[0], 2) == 0.075 && Decayed(risk[1], 1) == 0.875;
    assert Distance(schedule[0], 101) == 2 && Distance(schedule[1], 101) == 1;
  }

  class MertensOracle {
    const maxCtx: nat
    const schedule: seq<int>
    const risk: seq<real>
    const riskCache: array<real>
    var scheduleIdx: nat

    /** The cache holds the peak risks. */
    ghost predicate Baked()
      reads riskCache
    {
      && IsSchedule(schedule, risk, maxCtx)
      && riskCache.Length == maxCtx + 1
      && (forall q :: 0 <= q <= maxCtx ==> IsPeakRisk(schedule, risk, q, riskCache[q]))
    }

    /** Every entry before the index lies at or before `pos`. */
    ghost predicate Valid(pos: int)
      reads this, riskCache
    {
      && Baked()
      && scheduleIdx <= |schedule|
      && (forall i :: 0 <= i < scheduleIdx ==> schedule[i] <= pos)
    }

    constructor (maxCtx: nat, schedule: seq<int>, risk: seq<real>)
      requires IsSchedule(schedule, risk, maxCtx)
      ensures scheduleIdx == 0 && forall pos :: Valid(pos)
      ensures this.schedule == schedule && this.risk == risk && this.maxCtx == maxCtx && fresh(riskCache)
    {
      hide PeakSoFar, IsPeakRisk;
      var cache := new real[maxCtx + 1](_ => 0.0);
      forall q | 0 <= q <= maxCtx
        ensures PeakSoFar(schedule, risk, 0, 0, q, cache[q])
      {
        NothingCounted(schedule, risk, q);
      }
      for i := 0 to |schedule|
        invariant forall q :: 0 <= q <= maxCtx ==> PeakSoFar(schedule, risk, i, 0, q, cache[q])
      {
        for diff := 0 to 9
          invariant forall q :: 0 <= q <= maxCtx ==> PeakSoFar(schedule, risk, i, diff, q, cache[q])
        {
          BakeDistance(cache, schedule, risk, maxCtx, i, diff);
        }
        forall q | 0 <= q <= maxCtx
          ensures PeakSoFar(schedule, risk, i + 1, 0, q, cache[q])
        {
          EntryDone(schedule, risk, i, q, cache[q]);
        }
      }
      forall q | 0 <= q <= maxCtx
        ensures IsPeakRisk(schedule, risk, q, cache[q])
      {
        AllCounted(schedule, risk, q, cache[q]);
      }
      this.maxCtx, this.schedule, this.risk, riskCache, scheduleIdx := maxCtx, schedule, risk, cache, 0;
    }

    method Risk(pos: int) returns (r: real)
      requires Baked()
      ensures 0 <= pos <= maxCtx ==> IsPeakRisk(schedule, risk, pos, r)
      ensures !(0 <= pos <= maxCtx) ==> r == SearchedRisk(schedule, risk, pos)
    {
      if 0 <= pos <= maxCtx {
        return riskCache[pos];
      }
      if |schedule| == 0 {
        return 0.0;
      }
      var lo, hi := 0, |schedule| - 1;
      while lo < hi
        invariant 0 <= lo <= hi < |schedule|
        invariant forall k :: 0 <= k < lo ==> schedule[k] < pos
        invariant hi == |schedule| - 1 || schedule[hi] >= pos
      {
        var mid := (lo + hi) / 2;
        if schedule[mid] < pos {
          lo := mid + 1;
        } else {
          hi := mid;
        }
      }
      LandingIs(schedule, pos, 0, lo);
      NearestFirst(schedule, risk, maxCtx, pos);
      var i := if lo > 0 then lo - 1 else 0;
      while i < |schedule| && i <= lo + 1
        invariant (if lo > 0 then lo - 1 else 0) <= i <= lo + 2
        invariant forall k :: (if lo > 0 then lo - 1 else 0) <= k < i && k < |schedule| ==> !InReach(schedule, pos, k)
      {
        var diff := Distance(schedule[i], pos);
        if diff <= 8 {
          return Decayed(risk[i], diff);
        }
        i := i + 1;
      }
      r := 0.0;
    }

    /** The least position in (pos, pos + lookahead] that the schedule has left, or -1 exactly when there is
        none; once the index has not passed pos, of the whole schedule. */
    method NextRisk(pos: int, lookahead: int) returns (next: int)
      requires IsSchedule(schedule, risk, maxCtx)
      ensures next == -1 <==> !Pending(pos, lookahead)
      ensures next != -1 ==> next in schedule && pos < next <= pos + lookahead
      ensures next != -1 ==> forall i :: scheduleIdx <= i < |schedule| && pos < schedule[i] <= pos + lookahead ==> next <= schedule[i]
      ensures Valid(pos) ==> (next == -1 <==> !Coming(pos, lookahead))
      ensures Valid(pos) && next != -1 ==> forall p :: p in schedule && pos < p <= pos + lookahead ==> next <= p
    {
      hide IsPeakRisk;
      AllPending(pos, lookahead);
      var i := scheduleIdx;
      while i < |schedule|
        invariant scheduleIdx <= i
        invariant forall k :: scheduleIdx <= k < i && k < |schedule| ==> schedule[k] <= pos
      {
        var p := schedule[i];
        if p > pos && p <= pos + lookahead {
          assert p in schedule;
          return p;
        }
        if p > pos + lookahead {
          break;
        }
        i := i + 1;
      }
      return -1;
    }

    /** Some position the schedule has left lies in (pos, pos + lookahead]. */
    ghost predicate Pending(pos: int, lookahead: int)
      reads this
    {
      exists i :: scheduleIdx <= i < |schedule| && pos < schedule[i] <= pos + lookahead
    }

    /** Some scheduled position lies in (pos, pos + lookahead]. */
    ghost predicate Coming(pos: int, lookahead: int) {
      exists p :: p in schedule && pos < p <= pos + lookahead
    }

    lemma AllPending(pos: int, lookahead: int)
      ensures Valid(pos) ==> (Pending(pos, lookahead) <==> Coming(pos, lookahead))
      ensures Valid(pos) ==> forall p :: p in schedule && pos < p ==> exists i :: scheduleIdx <= i < |schedule| && schedule[i] == p
    {
      hide IsPeakRisk;
      if Valid(pos) {
        forall p | p in schedule && pos < p
          ensures exists i :: scheduleIdx <= i < |schedule| && schedule[i] == p
        {
          var j :| 0 <= j < |schedule| && schedule[j] == p;
          assert j >= scheduleIdx;
        }
        if Pending(pos, lookahead) {
          var i :| scheduleIdx <= i < |schedule| && pos < schedule[i] <= pos + lookahead;
          assert schedule[i] in schedule;
        }
      }
    }

    method Advance(pos: int)
      requires Valid(pos)
      modifies this`scheduleIdx
      ensures Valid(pos)
      ensures scheduleIdx == |schedule| || (scheduleIdx < |schedule| && schedule[scheduleIdx] > pos)
    {
      hide IsPeakRisk;
      while scheduleIdx < |schedule| && schedule[scheduleIdx] <= pos
        invariant scheduleIdx <= |schedule|
        invariant forall i :: 0 <= i < scheduleIdx ==> schedule[i] <= pos
      {
        scheduleIdx := scheduleIdx + 1;
      }
    }
  }

  // ---------------------------------------------------------------- the controller

  class CauchyCtrl {
    const mode: int
    const fixedN: int
    const partialWindow: int := 64
    const ricci: RicciSentinel?
    const mertens: MertensOracle?
    var lastResetPos: int
    var totalResets: nat

    ghost predicate Valid()
      reads this, ricci, mertens, if mertens != null then {mertens.riskCache} else {}
    {
      && fixedN > 0
      && (ricci != null ==> ricci.Valid())
      && (mertens != null ==> mertens.Valid(lastResetPos))
    }

    constructor (mode: int, fixedN: int, ricci: RicciSentinel?, mertens: MertensOracle?)
      requires ricci != null ==> ricci.Valid()
      requires mertens != null ==> mertens.Valid(-999999)
      ensures Valid() && totalResets == 0 && lastResetPos == -999999
      ensures this.mode == mode && this.fixedN == (if fixedN > 0 then fixedN else 512)
      ensures this.ricci == ricci && this.mertens == mertens
    {
      this.mode := mode;
      this.fixedN := if fixedN > 0 then fixedN else 512;
      this.ricci, this.mertens := ricci, mertens;
      lastResetPos, totalResets := -999999, 0;
    }

    /** The risk the oracle reports at a position. */
    ghost predicate HighRisk(pos: int)
      requires mertens != null
    {
      exists r: real :: r > 0.5 && IsReportedRisk(pos, r)
    }

    ghost predicate IsReportedRisk(pos: int, r: real)
      requires mertens != null
    {
      |mertens.schedule| == |mertens.risk| && if 0 <= pos <= mertens.maxCtx then IsPeakRisk(mertens.schedule, mertens.risk, pos, r) else r == SearchedRisk(mertens.schedule, mertens.risk, pos)
    }

    /** 0: none, 1: full, 2: partial. */
    method Check(pos: int) returns (kind: int)
      requires Valid()
      ensures 0 <= kind <= 2
      ensures kind != 0 ==> pos - lastResetPos >= partialWindow
      ensures mode == 1 ==> (kind == 1 <==> pos - lastResetPos >= partialWindow && pos - lastResetPos >= fixedN) && kind != 2
      ensures mode == 2 && kind == 1 ==> ricci != null && ricci.resetRecommended && |ricci.ratios| > ricci.warmupSamples
      ensures mode == 2 && ricci != null && ricci.resetRecommended && pos - lastResetPos >= partialWindow ==> kind == 1
      ensures mode == 2 && kind == 2 ==> mertens != null && (HighRisk(pos) || mertens.Coming(pos, 32))
      ensures mode == 2 && kind == 0 && pos - lastResetPos >= partialWindow ==>
                mertens == null || (!mertens.Coming(pos, 32) && exists r: real :: r <= 0.5 && IsReportedRisk(pos, r))
      ensures mode != 1 && mode != 2 ==> kind == 0
    {
      hide IsPeakRisk;
      if mode == 0 {
        return 0;
      }
      if pos - lastResetPos < partialWindow {
        return 0;
      }
      if mode == 1 {
        if pos - lastResetPos >= fixedN {
          return 1;
        }
        return 0;
      }
      if mode == 2 {
        if ricci != null && ricci.resetRecommended {
          return 1;
        }
        if mertens != null {
          assert mertens.Valid(pos);
          var risk := mertens.Risk(pos);
          assert IsReportedRisk(pos, risk);
          if risk > 0.5 {
            return 2;
          }
          var next := mertens.NextRisk(pos, 32);
          if next >= 0 {
            return 2;
          }
        }
        return 0;
      }
      return 0;
    }

    method RecordReset(pos: int)
      requires Valid() && lastResetPos <= pos
      modifies this`lastResetPos, this`totalResets, ricci, mertens
      ensures Valid() && lastResetPos == pos && totalResets == old(totalResets) + 1
      ensures ricci != null ==> ricci.ratios == [] && !ricci.resetRecommended
      ensures mertens != null ==> mertens.scheduleIdx <= |mertens.schedule|
                                  && (mertens.scheduleIdx < |mertens.schedule| ==> mertens.schedule[mertens.scheduleIdx] > pos)
    {
      hide IsPeakRisk;
      if mertens != null {
        assert mertens.Valid(pos);
      }
      lastResetPos := pos;
      totalResets := totalResets + 1;
      if ricci != null {
        ricci.Reset();
      }
      if mertens != null {
        mertens.Advance(pos);
      }
    }
  }

  // ---------------------------------------------------------------- runs

  /** A run feeds the sentinel and asks the controller at positions that never go back. */
  datatype Event = Sample(coeffs: seq<real>) | Ask(pos: int)

  ghost predicate Ascending(events: seq<Event>, from: int) {
    && (forall i :: 0 <= i < |events| && events[i].Ask? ==> events[i].pos >= from)
    && (forall i, k :: 0 <= i < k < |events| && events[i].Ask? && events[k].Ask? ==> events[i].pos <= events[k].pos)
  }

  /** Consecutive entries are at least gap apart. */
  ghost predicate Spaced(resets: seq<int>, gap: int) {
    forall i :: 0 < i < |resets| ==> resets[i] - resets[i - 1] >= gap
  }

  /** The gap each mode guarantees. */
  function Gap(mode: int, fixedN: int): int {
    if mode == 1 && fixedN > 64 then fixedN else 64
  }

  /** Spaced positions within a span are few. */
  lemma {:induction false} SpacedAreFew(resets: seq<int>, gap: int, lo: int, hi: int)
    requires gap > 0 && Spaced(resets, gap) && resets != [] && resets[0] >= lo && resets[|resets| - 1] <= hi
    ensures Mul(gap, |resets| - 1) <= hi - lo
  {
    var n := |resets|;
    if n == 1 {
      MulOne(gap);
    } else {
      SpacedAreFew(resets[..n - 1], gap, lo, resets[n - 2]);
      MulDistributes(gap, n - 2, 1);
      MulOne(gap);
    }
  }

  lemma ControlValid(ctrl: CauchyCtrl)
    requires ctrl.Valid()
    ensures Gap(ctrl.mode, ctrl.fixedN) > 0
  {
  }

  lemma NoneSpaced(gap: int)
    ensures Spaced([], gap)
  {
  }

  lemma SpacedNext(ctrl: CauchyCtrl, resets: seq<int>, pos: int)
    requires Spaced(resets, Gap(ctrl.mode, ctrl.fixedN))
    requires resets != [] ==> pos - resets[|resets| - 1] >= 64 && (ctrl.mode == 1 ==> pos - resets[|resets| - 1] >= ctrl.fixedN)
    ensures Spaced(resets + [pos], Gap(ctrl.mode, ctrl.fixedN))
  {
  }

  method FeedSentinel(ctrl: CauchyCtrl, coeffs: seq<real>)
    requires ctrl.Valid()
    modifies ctrl.ricci
    ensures ctrl.Valid() && ctrl.lastResetPos == old(ctrl.lastResetPos) && ctrl.totalResets == old(ctrl.totalResets)
  {
    hide IsPeakRisk, MertensOracle.Valid;
    if ctrl.ricci != null {
      var _ := ctrl.ricci.Check(coeffs);
    }
  }

  /** Check, and record a reset exactly when the check asks for one. */
  method AskOnce(ctrl: CauchyCtrl, pos: int) returns (reset: bool)
    requires ctrl.Valid() && ctrl.lastResetPos <= pos
    modifies ctrl, ctrl.ricci, ctrl.mertens
    ensures ctrl.Valid()
    ensures reset ==> pos - old(ctrl.lastResetPos) >= 64 && (ctrl.mode == 1 ==> pos - old(ctrl.lastResetPos) >= ctrl.fixedN)
    ensures reset ==> (ctrl.mode == 1 || ctrl.mode == 2) && ctrl.lastResetPos == pos && ctrl.totalResets == old(ctrl.totalResets) + 1
    ensures !reset ==> ctrl.lastResetPos == old(ctrl.lastResetPos) && ctrl.totalResets == old(ctrl.totalResets)
  {
    hide IsPeakRisk, CauchyCtrl.Valid, CauchyCtrl.HighRisk, MertensOracle.Coming, CauchyCtrl.IsReportedRisk;
    var kind := ctrl.Check(pos);
    reset := kind != 0;
    if reset {
      ctrl.RecordReset(pos);
    }
  }

  /** Every run that records a reset exactly when the check asks for one: resets keep their distance, so
      there are at most 1 + span / gap of them. */
  method Run(ctrl: CauchyCtrl, events: seq<Event>, lo: int, hi: int) returns (resets: seq<int>)
    requires ctrl.Valid() && ctrl.totalResets == 0 && ctrl.lastResetPos == -999999 && -999999 <= lo <= hi
    requires Ascending(events, lo) && forall i :: 0 <= i < |events| && events[i].Ask? ==> events[i].pos <= hi
    modifies ctrl, ctrl.ricci, ctrl.mertens
    ensures ctrl.Valid() && ctrl.totalResets == |resets|
    ensures Spaced(resets, Gap(ctrl.mode, ctrl.fixedN))
    ensures forall i :: 0 <= i < |resets| ==> lo <= resets[i] <= hi && Ask(resets[i]) in events
    ensures |resets| <= 1 + (hi - lo) / Gap(ctrl.mode, ctrl.fixedN)
    ensures ctrl.mode != 1 && ctrl.mode != 2 ==> resets == []
  {
    hide IsPeakRisk, RicciSentinel.Valid, MertensOracle.Valid, CauchyCtrl.Valid, CauchyCtrl.HighRisk, MertensOracle.Coming, CauchyCtrl.IsReportedRisk, Mul;
    ControlValid(ctrl);
    resets := [];
    ghost var gap := Gap(ctrl.mode, ctrl.fixedN);
    hide Gap, Spaced;
    NoneSpaced(gap);
    for i := 0 to |events|
      invariant ctrl.Valid() && ctrl.totalResets == |resets| && Spaced(resets, gap)
      invariant ctrl.lastResetPos == if resets == [] then -999999 else resets[|resets| - 1]
      invariant forall k :: 0 <= k < |resets| ==> lo <= resets[k] <= hi && Ask(resets[k]) in events
      invariant forall k :: i <= k < |events| && events[k].Ask? ==> ctrl.lastResetPos <= events[k].pos
      invariant ctrl.mode != 1 && ctrl.mode != 2 ==> resets == []
    {
      match events[i] {
        case Sample(coeffs) =>
          FeedSentinel(ctrl, coeffs);
        case Ask(pos) =>
          var reset := AskOnce(ctrl, pos);
          if reset {
            SpacedNext(ctrl, resets, pos);
            assert events[i] == Ask(pos);
            resets := resets + [pos];
          }
      }
    }
    if resets != [] {
      SpacedAreFew(resets, gap, lo, hi);
      QuotientAtLeast(gap, |resets| - 1, hi - lo);
    } else {
      QuotientNonNegative(hi - lo, gap);
    }
  }

  lemma QuotientAtLeast(gap: int, n: int, span: int)
    requires gap > 0 && Mul(gap, n) <= span
    ensures n <= span / gap
  {
    var q := span / gap;
    assert span == q * gap + span % gap;
    if q < n {
      MulMono(q + 1, n, gap);
    }
  }
}
