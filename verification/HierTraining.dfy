/** What calibrating the hierarchical predictor achieves (core/src/shannon_prime_sqfree.c, `sp_hier_calibrate_begin`,
    `sp_hier_calibrate_feed`, `sp_hier_calibrate_end`, `sp_hier_predict`): of all weights, those found predict the
    targets of the fed vectors from their skeletons best. Everything here is stated on the coefficients. */
module HierTraining {
  import opened HierPredictors
  import opened Matrices
  import opened RidgeTheory
  import opened Sums

  /** Coefficient idx[i], zero where there is none. */
  function At(c: seq<real>, idx: seq<nat>, i: int): real {
    if 0 <= i < |idx| && idx[i] < |c| then c[idx[i]] else 0.0
  }

  /** What weights V make of the skeleton of c for target t. */
  ghost function Guess(V: Mat, skeleton: seq<nat>, c: seq<real>, t: int): real {
    Sum(0, |skeleton|, (s: int) => V(s, t) * At(c, skeleton, s))
  }

  ghost function SquaredMiss(V: Mat, skeleton: seq<nat>, target: seq<nat>, c: seq<real>, t: int): real {
    var e := At(c, target, t) - Guess(V, skeleton, c, t);
    e * e
  }

  /** Squared error over all targets of one vector. */
  ghost function Miss(V: Mat, skeleton: seq<nat>, target: seq<nat>, c: seq<real>): real {
    Sum(0, |target|, (t: int) => SquaredMiss(V, skeleton, target, c, t))
  }

  /** Squared error over all vectors. */
  ghost function TrainingError(V: Mat, skeleton: seq<nat>, target: seq<nat>, vectors: seq<seq<real>>): real {
    if vectors == [] then 0.0
    else TrainingError(V, skeleton, target, vectors[..|vectors| - 1]) + Miss(V, skeleton, target, vectors[|vectors| - 1])
  }

  /** Squared norm of the weights. */
  ghost function Norm(V: Mat, ns: nat, nt: nat): real {
    Sum(0, nt, (t: int) => Sum(0, ns, (s: int) => V(s, t) * V(s, t)))
  }

  /** Lambda, which grows with the number of vectors, times the squared norm. */
  ghost function Penalty(n: nat, norm: real): real {
    0.0001 * (n as real) * norm
  }

  ghost function Cost(V: Mat, skeleton: seq<nat>, target: seq<nat>, vectors: seq<seq<real>>, ridge: real): real {
    TrainingError(V, skeleton, target, vectors) + ridge * Norm(V, |skeleton|, |target|)
  }

  /** No weights reach a cost below this one. */
  ghost predicate IsLeast(cost: real, skeleton: seq<nat>, target: seq<nat>, vectors: seq<seq<real>>, ridge: real) {
    forall V: Mat :: cost <= Cost(V, skeleton, target, vectors, ridge)
  }

  // ---------------------------------------------------------------- the cost target by target

  ghost function Losses(fs: seq<Sample>, n: nat, V: Mat): int -> real {
    (t: int) => Loss(fs, n, Column(V, t), t)
  }

  lemma {:induction false} ErrorIsLoss(hp: HierPredictor, V: Mat, fs: seq<Sample>, vectors: seq<seq<real>>)
    requires hp.IndicesInRange() && hp.AreSamples(fs, vectors)
    ensures TrainingError(V, hp.skeletonIdx, hp.targetIdx, vectors)
            == Sum(0, |hp.targetIdx|, Losses(fs, |hp.skeletonIdx|, V))
  {
    hide Loss, Miss;
    var ns, nt := |hp.skeletonIdx|, |hp.targetIdx|;
    if vectors == [] {
      NoLoss(fs, ns, V);
      SumZero(0, nt, Losses(fs, ns, V));
    } else {
      var last := |vectors| - 1;
      ErrorIsLoss(hp, V, fs[..last], vectors[..last]);
      assert hp.IsSampleOf(fs[last], vectors[last]);
      MissIsLoss(hp, V, fs, vectors[last]);
    }
  }

  lemma NoLoss(fs: seq<Sample>, n: nat, V: Mat)
    requires fs == []
    ensures forall t :: Losses(fs, n, V)(t) == 0.0
  {
  }

  /** One more vector. */
  lemma MissIsLoss(hp: HierPredictor, V: Mat, fs: seq<Sample>, c: seq<real>)
    requires hp.IndicesInRange() && fs != [] && hp.IsSampleOf(fs[|fs| - 1], c)
    ensures Sum(0, |hp.targetIdx|, Losses(fs, |hp.skeletonIdx|, V))
            == Sum(0, |hp.targetIdx|, Losses(fs[..|fs| - 1], |hp.skeletonIdx|, V)) + Miss(V, hp.skeletonIdx, hp.targetIdx, c)
  {
    hide Loss, Sum, SquaredMiss;
    var ns, nt, init := |hp.skeletonIdx|, |hp.targetIdx|, fs[..|fs| - 1];
    var misses := (t: int) => SquaredMiss(V, hp.skeletonIdx, hp.targetIdx, c, t);
    forall t | 0 <= t < nt
      ensures Losses(fs, ns, V)(t) == Losses(init, ns, V)(t) + misses(t)
    {
      OneMiss(hp, V, fs, c, t);
    }
    SumAdd(0, nt, Losses(init, ns, V), misses, Losses(fs, ns, V));
  }

  lemma OneMiss(hp: HierPredictor, V: Mat, fs: seq<Sample>, c: seq<real>, t: nat)
    requires hp.IndicesInRange() && fs != [] && hp.IsSampleOf(fs[|fs| - 1], c) && t < |hp.targetIdx|
    ensures Loss(fs, |hp.skeletonIdx|, Column(V, t), t)
            == Loss(fs[..|fs| - 1], |hp.skeletonIdx|, Column(V, t), t) + SquaredMiss(V, hp.skeletonIdx, hp.targetIdx, c, t)
  {
    hide Loss, SquaredMiss, Dot, Guess;
    var x := fs[|fs| - 1].x;
    GuessIsDot(V, hp.skeletonIdx, c, t, x);
    var e := At(c, hp.targetIdx, t) - Guess(V, hp.skeletonIdx, c, t);
    LastLoss(fs, |hp.skeletonIdx|, Column(V, t), t, e);
    MissIs(V, hp.skeletonIdx, hp.targetIdx, c, t, e);
  }

  lemma MissIs(V: Mat, skeleton: seq<nat>, target: seq<nat>, c: seq<real>, t: int, e: real)
    requires e == At(c, target, t) - Guess(V, skeleton, c, t)
    ensures SquaredMiss(V, skeleton, target, c, t) == e * e
  {
    hide Guess;
  }

  lemma GuessIsDot(V: Mat, skeleton: seq<nat>, c: seq<real>, t: int, x: int -> real)
    requires forall i :: 0 <= i < |skeleton| ==> x(i) == At(c, skeleton, i)
    ensures Guess(V, skeleton, c, t) == Dot(|skeleton|, Column(V, t), x)
  {
    hide Sum;
    DotSum(|skeleton|, Column(V, t), x, (s: int) => V(s, t) * At(c, skeleton, s));
  }

  /** The cost is the sum of the ridge objectives of the targets. */
  lemma CostIsObjectives(hp: HierPredictor, V: Mat, fs: seq<Sample>, vectors: seq<seq<real>>, ridge: real, objectives: int -> real)
    requires hp.IndicesInRange() && hp.AreSamples(fs, vectors)
    requires forall t :: 0 <= t < |hp.targetIdx| ==> objectives(t) == Objective(fs, |hp.skeletonIdx|, ridge, Column(V, t), t)
    ensures Cost(V, hp.skeletonIdx, hp.targetIdx, vectors, ridge) == Sum(0, |hp.targetIdx|, objectives)
  {
    hide Loss, Sum, TrainingError;
    var ns, nt := |hp.skeletonIdx|, |hp.targetIdx|;
    ErrorIsLoss(hp, V, fs, vectors);
    var norms := (t: int) => Sum(0, ns, (s: int) => V(s, t) * V(s, t));
    forall t | 0 <= t < nt
      ensures objectives(t) == Losses(fs, ns, V)(t) + ridge * norms(t)
    {
      DotSum(ns, Column(V, t), Column(V, t), (s: int) => V(s, t) * V(s, t));
    }
    SumLinear(0, nt, ridge, Losses(fs, ns, V), norms, objectives);
  }

  /** Weights that minimise every target's objective have the least cost of all weights. */
  lemma LeastCost(hp: HierPredictor, W: Mat, fs: seq<Sample>, vectors: seq<seq<real>>, ridge: real, V: Mat)
    requires hp.IndicesInRange() && hp.AreSamples(fs, vectors)
    requires forall t :: 0 <= t < |hp.targetIdx| ==> IsUniqueMinimiser(fs, |hp.skeletonIdx|, ridge, Column(W, t), t)
    ensures Cost(W, hp.skeletonIdx, hp.targetIdx, vectors, ridge) <= Cost(V, hp.skeletonIdx, hp.targetIdx, vectors, ridge)
  {
    hide Objective, Cost, Sum;
    var ns, nt := |hp.skeletonIdx|, |hp.targetIdx|;
    var f := (t: int) => Objective(fs, ns, ridge, Column(W, t), t);
    var g := (t: int) => Objective(fs, ns, ridge, Column(V, t), t);
    CostIsObjectives(hp, W, fs, vectors, ridge, f);
    CostIsObjectives(hp, V, fs, vectors, ridge, g);
    forall t | 0 <= t < nt
      ensures f(t) <= g(t)
    {
      assert IsUniqueMinimiser(fs, ns, ridge, Column(W, t), t);
    }
    SumMono(0, nt, f, g);
  }

  // ---------------------------------------------------------------- calibrate, then predict

  /** The squared error of the predictor on one vector. */
  method ErrorOn(hp: HierPredictor, c: seq<real>) returns (miss: real)
    requires hp.Valid() && hp.W != null && |c| == hp.padDim
    ensures miss == Miss(Entries(hp.W), hp.skeletonIdx, hp.targetIdx, c)
  {
    hide SquaredMiss, HierPredictor.WeightedSum;
    var skeleton := new real[|hp.skeletonIdx|](i => At(c, hp.skeletonIdx, i));
    var target := hp.Predict(skeleton);
    ghost var V, x, y := Entries(hp.W), skeleton[..], target[..];
    miss := 0.0;
    for t := 0 to |hp.targetIdx|
      invariant target[..] == y
      invariant miss == Sum(0, t, (u: int) => SquaredMiss(V, hp.skeletonIdx, hp.targetIdx, c, u))
    {
      var e := c[hp.targetIdx[t]] - target[t];
      PredictionIsGuess(V, hp.skeletonIdx, hp.targetIdx, c, x, t, e);
      miss := miss + e * e;
    }
  }

  lemma PredictionIsGuess(V: Mat, skeleton: seq<nat>, target: seq<nat>, c: seq<real>, x: seq<real>, t: nat, e: real)
    requires |x| == |skeleton| && t < |target| && target[t] < |c| && forall i :: 0 <= i < |x| ==> x[i] == At(c, skeleton, i)
    requires e == c[target[t]] - HierPredictor.WeightedSum(V, x, t, |x|)
    ensures SquaredMiss(V, skeleton, target, c, t) == e * e
  {
    hide Sum, Dot, Guess, HierPredictor.WeightedSum;
    HierPredictor.PredictionIsDot(V, x, t, |x|);
    GuessIsDot(V, skeleton, c, t, (s: int) => if 0 <= s < |x| then x[s] else 0.0);
    MissIs(V, skeleton, target, c, t, e);
  }

  method FeedAll(hp: HierPredictor, vectors: seq<seq<real>>)
    requires hp.Valid() && !hp.calibrating && forall k :: 0 <= k < |vectors| ==> |vectors[k]| == hp.padDim
    modifies hp
    ensures hp.Valid() && hp.calibrating && hp.fed == vectors && fresh(hp.calibXtX) && fresh(hp.calibXtY)
  {
    var rc := hp.CalibrateBegin();
    for k := 0 to |vectors|
      invariant hp.Valid() && hp.calibrating && hp.fed == vectors[..k]
      invariant fresh(hp.calibXtX) && fresh(hp.calibXtY)
    {
      hp.CalibrateFeed(vectors[k]);
      assert vectors[..k + 1] == vectors[..k] + [vectors[k]];
    }
  }

  /** Calibrate on some vectors and predict the targets of each of them from its skeleton. With weights kept
      exactly, the squared errors made plus lambda times the squared norm of the weights are the least that
      any weights V can reach. */
  method TrainAndScore(hp: HierPredictor, vectors: seq<seq<real>>, sqrt: real -> real) returns (error: real)
    requires hp.Valid() && !hp.calibrating && IsSqrt(sqrt) && vectors != []
    requires forall k :: 0 <= k < |vectors| ==> |vectors[k]| == hp.padDim
    modifies hp
    ensures hp.Valid() && hp.W != null
    ensures error == TrainingError(Entries(hp.W), hp.skeletonIdx, hp.targetIdx, vectors)
    ensures IsLeast(error + Penalty(|vectors|, Norm(Entries(hp.W), |hp.skeletonIdx|, |hp.targetIdx|)),
                    hp.skeletonIdx, hp.targetIdx, vectors, 0.0001 * (|vectors| as real))
  {
    hide IsLeast, IsUniqueMinimiser, Miss, Norm, Penalty, HierPredictor.Accumulated;
    FeedAll(hp, vectors);
    ghost var samples, ridge := hp.samples, 0.0001 * (|vectors| as real);
    var rc;
    ghost var solution;
    rc, solution := hp.CalibrateEnd(sqrt, (w: real) => w);
    error := 0.0;
    ghost var W := Entries(hp.W);
    for k := 0 to |vectors|
      invariant hp.Valid() && hp.W != null && Entries(hp.W) == W
      invariant error == TrainingError(W, hp.skeletonIdx, hp.targetIdx, vectors[..k])
    {
      var miss := ErrorOn(hp, vectors[k]);
      assert vectors[..k + 1][..k] == vectors[..k];
      error := error + miss;
    }
    assert vectors[..|vectors|] == vectors;
    Scored(hp, W, solution, samples, vectors, ridge, error);
  }

  lemma Scored(hp: HierPredictor, W: Mat, solution: Mat, fs: seq<Sample>, vectors: seq<seq<real>>, ridge: real, error: real)
    requires hp.IndicesInRange() && hp.AreSamples(fs, vectors)
    requires forall t :: 0 <= t < |hp.targetIdx| ==> IsUniqueMinimiser(fs, |hp.skeletonIdx|, ridge, Column(solution, t), t)
    requires forall s, t :: 0 <= s < |hp.skeletonIdx| && 0 <= t < |hp.targetIdx| ==> W(s, t) == solution(s, t)
    requires error == TrainingError(W, hp.skeletonIdx, hp.targetIdx, vectors) && ridge == 0.0001 * (|vectors| as real)
    ensures IsLeast(error + Penalty(|vectors|, Norm(W, |hp.skeletonIdx|, |hp.targetIdx|)),
                    hp.skeletonIdx, hp.targetIdx, vectors, ridge)
  {
    hide IsUniqueMinimiser, TrainingError, Norm;
    CostCong(hp.skeletonIdx, hp.targetIdx, W, solution, vectors, ridge);
    forall V: Mat
      ensures Cost(solution, hp.skeletonIdx, hp.targetIdx, vectors, ridge) <= Cost(V, hp.skeletonIdx, hp.targetIdx, vectors, ridge)
    {
      LeastCost(hp, solution, fs, vectors, ridge, V);
    }
  }

  /** The cost depends on the weights inside the matrix only. */
  lemma CostCong(skeleton: seq<nat>, target: seq<nat>, W: Mat, V: Mat, vectors: seq<seq<real>>, ridge: real)
    requires forall s, t :: 0 <= s < |skeleton| && 0 <= t < |target| ==> W(s, t) == V(s, t)
    ensures Cost(W, skeleton, target, vectors, ridge) == Cost(V, skeleton, target, vectors, ridge)
  {
    hide TrainingError;
    ErrorCong(skeleton, target, W, V, vectors);
    NormCong(|skeleton|, |target|, W, V);
  }

  lemma NormCong(ns: nat, nt: nat, W: Mat, V: Mat)
    requires forall s, t :: 0 <= s < ns && 0 <= t < nt ==> W(s, t) == V(s, t)
    ensures Norm(W, ns, nt) == Norm(V, ns, nt)
  {
    hide Sum;
    var f := (t: int) => Sum(0, ns, (s: int) => W(s, t) * W(s, t));
    var g := (t: int) => Sum(0, ns, (s: int) => V(s, t) * V(s, t));
    forall t | 0 <= t < nt
      ensures f(t) == g(t)
    {
      SumCong(0, ns, (s: int) => W(s, t) * W(s, t), (s: int) => V(s, t) * V(s, t));
    }
    SumCong(0, nt, f, g);
  }

  lemma {:induction false} ErrorCong(skeleton: seq<nat>, target: seq<nat>, W: Mat, V: Mat, vectors: seq<seq<real>>)
    requires forall s, t :: 0 <= s < |skeleton| && 0 <= t < |target| ==> W(s, t) == V(s, t)
    ensures TrainingError(W, skeleton, target, vectors) == TrainingError(V, skeleton, target, vectors)
  {
    hide Sum;
    if vectors != [] {
      var c := vectors[|vectors| - 1];
      ErrorCong(skeleton, target, W, V, vectors[..|vectors| - 1]);
      forall t | 0 <= t < |target|
        ensures SquaredMiss(W, skeleton, target, c, t) == SquaredMiss(V, skeleton, target, c, t)
      {
        SumCong(0, |skeleton|, (s: int) => W(s, t) * At(c, skeleton, s), (s: int) => V(s, t) * At(c, skeleton, s));
      }
      SumCong(0, |target|, (t: int) => SquaredMiss(W, skeleton, target, c, t), (t: int) => SquaredMiss(V, skeleton, target, c, t));
    }
  }
}
