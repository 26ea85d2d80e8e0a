/** The Jacobi eigenvalue solver (core/src/shannon_prime.c, `sp_jacobi_eigen`). Both arrays are rotated in
    place. */
module Jacobi {
  import opened JacobiTheory
  import opened Matrices
  import opened RealArith
  import opened Sums

  /** What every rotation keeps: A is symmetric, V orthogonal, the trace that of the input and the
      off-diagonal mass no larger; and, as long as no rotation took the small-angle branch, A is
      exactly V^T A0 V and has the mass of A0. */
  ghost predicate Invariant(n: nat, A0: Mat, A: Mat, V: Mat, exact: bool) {
    && Symmetric(A, n)
    && Orthogonal(n, V)
    && Trace(A, n) == Trace(A0, n)
    && Off(A, n) <= Off(A0, n)
    && (exact ==> Same(n, n, A, Conjugate(n, A0, V)) && Mass(A, n) == Mass(A0, n))
  }

  lemma OffCong(n: nat, A: Mat, B: Mat)
    requires Same(n, n, A, B)
    ensures Off(A, n) == Off(B, n)
  {
    forall i | 0 <= i < n
      ensures RowOff(A, n, i) == RowOff(B, n, i)
    {
      SumCong(i + 1, n, (j: int) => A(i, j) * A(i, j), (j: int) => B(i, j) * B(i, j));
    }
    SumCong(0, n, (i: int) => RowOff(A, n, i), (i: int) => RowOff(B, n, i));
  }

  lemma MassCong(n: nat, A: Mat, B: Mat)
    requires Same(n, n, A, B)
    ensures Mass(A, n) == Mass(B, n)
  {
    OffCong(n, A, B);
    SumCong(0, n, (k: int) => SquareEntry(A, k), (k: int) => SquareEntry(B, k));
  }

  lemma TraceCong(n: nat, A: Mat, B: Mat)
    requires Same(n, n, A, B)
    ensures Trace(A, n) == Trace(B, n)
  {
    SumCong(0, n, (k: int) => A(k, k), (k: int) => B(k, k));
  }

  lemma StepKeepsInvariant(n: nat, A0: Mat, A: Mat, V: Mat, exact: bool, p: int, q: int,
                           tau: real, t: real, c: real, s: real, A': Mat, V': Mat)
    requires Invariant(n, A0, A, V, exact)
    requires IsRotation(n, p, q, c, s) && s == t * c && c > 0.0
    requires A(p, q) != 0.0 && A(q, q) - A(p, p) == 2.0 * (tau * A(p, q))
    requires Same(n, n, A', Step(A, p, q, t, c, s)) && Same(n, n, V', RotateColumns(V, p, q, c, s))
    ensures Invariant(n, A0, A', V', exact && Annihilates(tau, t))
  {
    hide Step, RotateColumns, RotateRows, Orthogonal, Off, Trace, Conjugate, Annihilates, Mass;
    var S := Step(A, p, q, t, c, s);
    StepSymmetric(n, A, p, q, t, c, s);
    RotationKeepsOrthogonal(n, V, p, q, c, s, V');
    StepTrace(n, A, p, q, t, c, s);
    TraceCong(n, A', S);
    StepLowersOff(n, A, p, q, t, c, s);
    OffCong(n, A', S);
    SquareSign(A(p, q), A(p, q) * A(p, q));
    if exact && Annihilates(tau, t) {
      var C := Conjugate(n, A0, V);
      StepIsRotation(n, A, p, q, tau, t, c, s);
      StepKeepsMass(n, A, p, q, tau, t, c, s);
      MassCong(n, A', S);
      ConjugateRotates(n, A0, V, p, q, c, s, V');
      RotateCong(n, A, C, p, q, c, s);
      RotateCong(n, RotateColumns(A, p, q, c, s), RotateColumns(C, p, q, c, s), p, q, c, s);
    }
  }

  // ---------------------------------------------------------------- what a run does

  /** A visit of the plane (p, q) of a matrix. */
  datatype Visit = Visit(A: Mat, p: nat, q: nat)

  predicate Negligible(x: real) {
    -0.000000000000001 < x < 0.000000000000001
  }

  function Tau(app: real, aqq: real, apq: real): real {
    if apq == 0.0 then 0.0 else (aqq - app) / (2.0 * apq)
  }

  ghost function TauOf(A: Mat, p: int, q: int): real {
    Tau(A(p, p), A(q, q), A(p, q))
  }

  /** The visit rotates, and by the small-angle branch. */
  ghost predicate SmallAngle(v: Visit) {
    !Negligible(v.A(v.p, v.q)) && SmallAngleBranch(TauOf(v.A, v.p, v.q))
  }

  function Cosine(t: real, sqrt: real -> real): real {
    var r := sqrt(1.0 + t * t);
    if r == 0.0 then 0.0 else 1.0 / r
  }

  function Sine(t: real, sqrt: real -> real): real {
    t * Cosine(t, sqrt)
  }

  /** What the solver leaves after a visit. */
  ghost predicate Visited(n: nat, v: Visit, after: Mat, sqrt: real -> real) {
    if Negligible(v.A(v.p, v.q)) then Same(n, n, after, v.A)
    else
      var t := Tangent(TauOf(v.A, v.p, v.q), sqrt);
      var c := Cosine(t, sqrt);
      Same(n, n, after, Step(v.A, v.p, v.q, t, c, Sine(t, sqrt)))
  }

  /** The visits lead from one matrix to another, one after the other. */
  ghost predicate Leads(n: nat, visits: seq<Visit>, from: Mat, to: Mat, sqrt: real -> real) {
    if visits == [] then Same(n, n, from, to)
    else
      var last := visits[|visits| - 1];
      Visited(n, last, to, sqrt) && Leads(n, visits[..|visits| - 1], from, last.A, sqrt)
  }

  /** The planes of one sweep, in order. */
  function PlanesOfRow(n: nat, p: nat, upto: nat): seq<(nat, nat)>
    requires p < upto
    decreases upto
  {
    if upto == p + 1 then [] else PlanesOfRow(n, p, upto - 1) + [(p, upto - 1)]
  }

  function PlanesTo(n: nat, rows: nat): seq<(nat, nat)>
    requires rows < n
  {
    if rows == 0 then [] else PlanesTo(n, rows - 1) + PlanesOfRow(n, rows - 1, n)
  }

  /** All planes: rows p = 0, 1, ..., n - 2, each with q = p + 1, ..., n - 1. */
  function Planes(n: nat): seq<(nat, nat)> {
    if n == 0 then [] else PlanesTo(n, n - 1)
  }

  /** Every plane p < q once, row by row. */
  lemma {:induction false} RowIsComplete(n: nat, p: nat, upto: nat)
    requires p < upto
    ensures |PlanesOfRow(n, p, upto)| == upto - p - 1
    ensures forall k :: 0 <= k < upto - p - 1 ==> PlanesOfRow(n, p, upto)[k] == (p, p + 1 + k)
    decreases upto
  {
    if upto > p + 1 {
      RowIsComplete(n, p, upto - 1);
    }
  }

  ghost predicate AllPlanes(list: seq<(nat, nat)>, n: nat, rows: nat) {
    forall p: nat, q: nat :: (p, q) in list <==> p < rows && p < q < n
  }

  ghost predicate InRowOrder(list: seq<(nat, nat)>) {
    forall i, k :: 0 <= i < k < |list| ==> Earlier(list[i], list[k])
  }

  lemma {:induction false} RowsAreComplete(n: nat, rows: nat)
    requires rows < n
    ensures AllPlanes(PlanesTo(n, rows), n, rows) && InRowOrder(PlanesTo(n, rows))
  {
    hide AllPlanes, InRowOrder, PlanesOfRow;
    if rows > 0 {
      var before, row := PlanesTo(n, rows - 1), PlanesOfRow(n, rows - 1, n);
      RowsAreComplete(n, rows - 1);
      MoreMembers(n, rows, before, row);
      MoreInOrder(n, rows, before, row);
    } else {
      NoPlanes(n);
    }
  }

  lemma NoPlanes(n: nat)
    ensures AllPlanes([], n, 0) && InRowOrder([])
  {
  }

  lemma MoreMembers(n: nat, rows: nat, before: seq<(nat, nat)>, row: seq<(nat, nat)>)
    requires 0 < rows < n && AllPlanes(before, n, rows - 1) && row == PlanesOfRow(n, rows - 1, n)
    ensures AllPlanes(before + row, n, rows)
  {
    forall p: nat, q: nat
      ensures (p, q) in before + row <==> p < rows && p < q < n
    {
      RowMembers(n, rows - 1, p, q);
      hide PlanesOfRow;
    }
  }

  lemma MoreInOrder(n: nat, rows: nat, before: seq<(nat, nat)>, row: seq<(nat, nat)>)
    requires 0 < rows < n && AllPlanes(before, n, rows - 1) && InRowOrder(before) && row == PlanesOfRow(n, rows - 1, n)
    ensures InRowOrder(before + row)
  {
    RowIsComplete(n, rows - 1, n);
    hide PlanesOfRow;
    var all := before + row;
    forall i, k | 0 <= i < k < |all|
      ensures Earlier(all[i], all[k])
    {
      if i < |before| <= k {
        assert (before[i].0, before[i].1) == before[i] && before[i] in before;
        assert all[k] == row[k - |before|];
      }
    }
  }

  lemma RowMembers(n: nat, row: nat, p: nat, q: nat)
    requires row < n
    ensures (p, q) in PlanesOfRow(n, row, n) <==> p == row && p < q < n
  {
    RowIsComplete(n, row, n);
    hide PlanesOfRow;
    if p == row && p < q < n {
      assert PlanesOfRow(n, row, n)[q - p - 1] == (p, q);
    }
  }

  predicate Earlier(a: (nat, nat), b: (nat, nat)) {
    a.0 < b.0 || (a.0 == b.0 && a.1 < b.1)
  }

  /** A sweep visits every plane exactly once, in row order. */
  lemma PlanesAreComplete(n: nat)
    ensures forall p: nat, q: nat :: (p, q) in Planes(n) <==> p < q < n
    ensures forall i, k :: 0 <= i < k < |Planes(n)| ==>
              Planes(n)[i].0 < Planes(n)[k].0 || (Planes(n)[i].0 == Planes(n)[k].0 && Planes(n)[i].1 < Planes(n)[k].1)
  {
    hide PlanesTo, PlanesOfRow;
    var list := Planes(n);
    if n > 0 {
      RowsAreComplete(n, n - 1);
      assert list == PlanesTo(n, n - 1);
    } else {
      NoPlanes(n);
      assert list == [];
    }
    hide Planes;
    PlanesInWords(list, n, if n > 0 then n - 1 else 0);
  }

  lemma PlanesInWords(list: seq<(nat, nat)>, n: nat, rows: nat)
    requires AllPlanes(list, n, rows) && InRowOrder(list) && rows == if n > 0 then n - 1 else 0
    ensures forall p: nat, q: nat :: (p, q) in list <==> p < q < n
    ensures forall i, k :: 0 <= i < k < |list| ==>
              list[i].0 < list[k].0 || (list[i].0 == list[k].0 && list[i].1 < list[k].1)
  {
  }

  function PlaneSeq(visits: seq<Visit>): (planes: seq<(nat, nat)>)
    ensures |planes| == |visits|
  {
    seq(|visits|, k requires 0 <= k < |visits| => (visits[k].p, visits[k].q))
  }

  lemma PlaneSeqAppend(visits: seq<Visit>, v: Visit)
    ensures PlaneSeq(visits + [v]) == PlaneSeq(visits) + [(v.p, v.q)]
  {
  }

  ghost predicate AllExact(visits: seq<Visit>) {
    forall k :: 0 <= k < |visits| ==> !SmallAngle(visits[k])
  }

  /** The sweeps of a run, and the matrices before each and after the last. */
  datatype JacobiRun = JacobiRun(states: seq<Mat>, sweeps: seq<seq<Visit>>) {
    /** Every sweep visits all planes in order, and is made only while the off-diagonal mass is at or
        above the threshold; the run ends below it or at the limit of sweeps. */
    ghost predicate IsRun(n: nat, A0: Mat, A: Mat, maxSweeps: nat, sqrt: real -> real) {
      && |states| == |sweeps| + 1 && |sweeps| <= maxSweeps
      && Same(n, n, states[0], A0) && Same(n, n, A, states[|sweeps|])
      && (forall k :: 0 <= k < |sweeps| ==> IsSweep(n, k, sqrt))
      && (Converged(n) || |sweeps| == maxSweeps)
    }

    ghost predicate IsSweep(n: nat, k: nat, sqrt: real -> real)
      requires k < |sweeps| && |states| == |sweeps| + 1
    {
      && Off(states[k], n) >= 0.00000000000000000001
      && PlaneSeq(sweeps[k]) == Planes(n)
      && Leads(n, sweeps[k], states[k], states[k + 1], sqrt)
    }

    /** The run ended because the off-diagonal mass fell below the threshold. */
    ghost predicate Converged(n: nat)
      requires |states| > 0
    {
      Off(states[|states| - 1], n) < 0.00000000000000000001
    }

    /** No rotation took the small-angle branch. */
    ghost predicate Exact() {
      forall k :: 0 <= k < |sweeps| ==> AllExact(sweeps[k])
    }
  }

  // ---------------------------------------------------------------- the in-place solver

  method SetIdentity(V: array2<real>)
    requires V.Length0 == V.Length1
    modifies V
    ensures Same(V.Length0, V.Length0, Entries(V), Identity)
  {
    forall i, j | 0 <= i < V.Length0 && 0 <= j < V.Length1 {
      V[i, j] := 0.0;
    }
    for i := 0 to V.Length0
      invariant forall r, j :: 0 <= r < V.Length0 && 0 <= j < V.Length0 ==>
                                 V[r, j] == if r == j && r < i then 1.0 else 0.0
    {
      V[i, i] := 1.0;
    }
  }

  /** The convergence measure, accumulated as the source does. */
  method OffDiagonal(A: array2<real>) returns (off: real)
    requires A.Length0 == A.Length1
    ensures off == Off(Entries(A), A.Length0)
  {
    var n := A.Length0;
    off := 0.0;
    for i := 0 to n
      invariant off == RowsOff(Entries(A), n, i)
    {
      ghost var before := off;
      for j := i + 1 to n
        invariant off == before + RowOff(Entries(A), j, i)
      {
        off := off + A[i, j] * A[i, j];
      }
    }
  }

  /** Entries (r, p), (p, r), (r, q) and (q, r) for one r outside the plane. */
  method RotateLine(A: array2<real>, p: nat, q: nat, c: real, s: real, r: nat, ghost S: Mat)
    requires A.Length0 == A.Length1 && p < q < A.Length0 && r < A.Length0 && r != p && r != q
    requires S(r, p) == S(p, r) == c * A[r, p] - s * A[r, q]
    requires S(r, q) == S(q, r) == s * A[r, p] + c * A[r, q]
    modifies A
    ensures forall i, j :: 0 <= i < A.Length0 && 0 <= j < A.Length1 ==>
              A[i, j] == if OnLine(i, j, p, q, r) then S(i, j) else old(A[i, j])
  {
    var arp, arq := A[r, p], A[r, q];
    A[r, p] := c * arp - s * arq;
    A[p, r] := A[r, p];
    A[r, q] := s * arp + c * arq;
    A[q, r] := A[r, q];
  }

  ghost predicate OnLine(i: int, j: int, p: int, q: int, r: int) {
    (i == r && (j == p || j == q)) || (j == r && (i == p || i == q))
  }

  /** The entries rewritten once every line below r has been visited. */
  ghost predicate Rewritten(i: int, j: int, p: int, q: int, r: int) {
    var iInPlane, jInPlane := i == p || i == q, j == p || j == q;
    (iInPlane && jInPlane) || (iInPlane && j < r) || (jInPlane && i < r)
  }

  /** Rows and columns p and q of the symmetric matrix A, rewritten for one rotation. */
  method RotateMatrix(A: array2<real>, p: nat, q: nat, t: real, c: real, s: real)
    requires A.Length0 == A.Length1 && p < q < A.Length0
    requires Symmetric(Entries(A), A.Length0)
    modifies A
    ensures Same(A.Length0, A.Length0, Entries(A), Step(old(Entries(A)), p, q, t, c, s))
  {
    hide Step;
    var n := A.Length0;
    ghost var B := Entries(A);
    ghost var S := Step(B, p, q, t, c, s);
    StepPlane(B, p, q, t, c, s);
    RotateCorner(A, p, q, t, S);
    RotateLines(A, p, q, t, c, s, B, S);
  }

  /** The four entries of the plane itself. */
  method RotateCorner(A: array2<real>, p: nat, q: nat, t: real, ghost S: Mat)
    requires A.Length0 == A.Length1 && p < q < A.Length0
    requires S(p, p) == A[p, p] - t * A[p, q] && S(q, q) == A[q, q] + t * A[p, q]
    requires S(p, q) == 0.0 && S(q, p) == 0.0
    modifies A
    ensures forall i, j :: 0 <= i < A.Length0 && 0 <= j < A.Length0 ==>
              A[i, j] == if (i == p || i == q) && (j == p || j == q) then S(i, j) else old(A[i, j])
  {
    var app, aqq, apq := A[p, p], A[q, q], A[p, q];
    A[p, p] := app - t * apq;
    A[q, q] := aqq + t * apq;
    A[p, q] := 0.0;
    A[q, p] := 0.0;
  }

  /** The loop over all lines outside the plane. */
  method RotateLines(A: array2<real>, p: nat, q: nat, ghost t: real, c: real, s: real, ghost B: Mat, ghost S: Mat)
    requires A.Length0 == A.Length1 && p < q < A.Length0
    requires S == Step(B, p, q, t, c, s)
    requires forall i, j :: 0 <= i < A.Length0 && 0 <= j < A.Length0 ==>
               A[i, j] == if Rewritten(i, j, p, q, 0) then S(i, j) else B(i, j)
    modifies A
    ensures Same(A.Length0, A.Length0, Entries(A), S)
  {
    hide Step;
    var n := A.Length0;
    for r := 0 to n
      invariant forall i, j :: 0 <= i < n && 0 <= j < n ==>
                  A[i, j] == if Rewritten(i, j, p, q, r) then S(i, j) else B(i, j)
    {
      if r == p || r == q {
        continue;
      }
      StepLine(B, p, q, t, c, s, r);
      assert A[r, p] == B(r, p) && A[r, q] == B(r, q);
      RotateLine(A, p, q, c, s, r, S);
    }
    forall i, j | 0 <= i < n && 0 <= j < n
      ensures A[i, j] == S(i, j)
    {
      if i != p && i != q && j != p && j != q {
        StepElsewhere(B, p, q, t, c, s, i, j);
      }
    }
  }

  lemma StepPlane(B: Mat, p: int, q: int, t: real, c: real, s: real)
    requires p < q
    ensures var S := Step(B, p, q, t, c, s);
            && S(p, p) == B(p, p) - t * B(p, q) && S(q, q) == B(q, q) + t * B(p, q)
            && S(p, q) == 0.0 && S(q, p) == 0.0
  {
  }

  lemma StepLine(B: Mat, p: int, q: int, t: real, c: real, s: real, r: int)
    requires p < q && r != p && r != q
    ensures var S := Step(B, p, q, t, c, s);
            && S(r, p) == c * B(r, p) - s * B(r, q) && S(r, q) == s * B(r, p) + c * B(r, q)
            && S(p, r) == S(r, p) && S(q, r) == S(r, q)
  {
  }

  lemma StepElsewhere(B: Mat, p: int, q: int, t: real, c: real, s: real, i: int, j: int)
    requires i != p && i != q && j != p && j != q
    ensures Step(B, p, q, t, c, s)(i, j) == B(i, j)
  {
  }

  /** Columns p and q of V, rewritten for one rotation. */
  method RotateVectors(V: array2<real>, p: nat, q: nat, c: real, s: real)
    requires V.Length0 == V.Length1 && p < q < V.Length0
    modifies V
    ensures Same(V.Length0, V.Length0, Entries(V), RotateColumns(old(Entries(V)), p, q, c, s))
  {
    hide RotateColumns;
    var n := V.Length0;
    ghost var U := Entries(V);
    ghost var R := RotateColumns(U, p, q, c, s);
    for r := 0 to n
      invariant forall i, j :: 0 <= i < r && 0 <= j < n ==> V[i, j] == R(i, j)
      invariant forall i, j :: r <= i < n && 0 <= j < n ==> V[i, j] == U(i, j)
    {
      var vrp, vrq := V[r, p], V[r, q];
      RotatedRow(U, p, q, c, s, r);
      V[r, p] := c * vrp - s * vrq;
      V[r, q] := s * vrp + c * vrq;
    }
  }

  lemma RotatedRow(U: Mat, p: int, q: int, c: real, s: real, r: int)
    requires p < q
    ensures var R := RotateColumns(U, p, q, c, s);
            && R(r, p) == c * U(r, p) - s * U(r, q) && R(r, q) == s * U(r, p) + c * U(r, q)
            && forall j :: j != p && j != q ==> R(r, j) == U(r, j)
  {
  }

  /** Rotate entry (p, q) away, in both arrays. */
  method RotateAway(A: array2<real>, V: array2<real>, p: nat, q: nat, sqrt: real -> real)
    requires A != V && A.Length0 == A.Length1 == V.Length0 == V.Length1 && p < q < A.Length0
    requires Symmetric(Entries(A), A.Length0) && !Negligible(A[p, q])
    modifies A, V
    ensures var t := Tangent(TauOf(old(Entries(A)), p, q), sqrt);
            var c := Cosine(t, sqrt);
            && Same(A.Length0, A.Length0, Entries(A), Step(old(Entries(A)), p, q, t, c, Sine(t, sqrt)))
            && Same(A.Length0, A.Length0, Entries(V), RotateColumns(old(Entries(V)), p, q, c, Sine(t, sqrt)))
  {
    hide Step, RotateColumns, Tangent, Cosine, Sine, Tau;
    var tau := Tau(A[p, p], A[q, q], A[p, q]);
    ghost var B := Entries(A);
    assert tau == TauOf(B, p, q);
    var t := Tangent(tau, sqrt);
    var c := Cosine(t, sqrt);
    var s := Sine(t, sqrt);
    RotateMatrix(A, p, q, t, c, s);
    RotateVectors(V, p, q, c, s);
  }

  /** One visit of the plane (p, q): skip a negligible entry, otherwise rotate it away. */
  method VisitPlane(A: array2<real>, V: array2<real>, p: nat, q: nat, sqrt: real -> real, ghost A0: Mat, ghost exact: bool)
    returns (ghost exact': bool)
    requires A != V && A.Length0 == A.Length1 == V.Length0 == V.Length1 && p < q < A.Length0
    requires IsSqrt(sqrt)
    requires Invariant(A.Length0, A0, Entries(A), Entries(V), exact)
    modifies A, V
    ensures Invariant(A.Length0, A0, Entries(A), Entries(V), exact')
    ensures Visited(A.Length0, Visit(old(Entries(A)), p, q), Entries(A), sqrt)
    ensures exact' <==> exact && !SmallAngle(Visit(old(Entries(A)), p, q))
    ensures exact && Mass(A0, A.Length0) <= 2.0 ==> exact'
    ensures -0.000000000000001 < old(A[p, q]) < 0.000000000000001 ==>
              Same(A.Length0, A.Length0, Entries(A), old(Entries(A))) && Same(A.Length0, A.Length0, Entries(V), old(Entries(V)))
    ensures !(-0.000000000000001 < old(A[p, q]) < 0.000000000000001) ==> A[p, q] == 0.0 && A[q, p] == 0.0
    ensures Spread(A.Length0, old(Entries(A)), Entries(A), p, q)
    ensures SmallTurn(A.Length0, old(Entries(V)), Entries(V), p, q)
  {
    hide Step, RotateColumns, Tangent, Cosine, Sine, Tau, Orthogonal, Off, Trace, Conjugate, Mass, SmallAngleBranch, Spread, SmallTurn;
    exact' := exact;
    if Negligible(A[p, q]) {
      NoTurn(A.Length0, Entries(A), Entries(V), p, q);
      return;
    }
    ghost var B, U := Entries(A), Entries(V);
    exact' := exact && !SmallAngle(Visit(B, p, q));
    RotateAway(A, V, p, q, sqrt);
    VisitKeepsInvariant(A.Length0, A0, B, U, exact, p, q, Entries(A), Entries(V), sqrt);
    VisitSpreads(A.Length0, B, p, q, Entries(A), sqrt);
    RemovedEntry(A.Length0, B, p, q, Entries(A), sqrt);
    VisitTurnsLittle(A.Length0, B, p, q, U, Entries(V), sqrt);
  }

  /** V is turned in the plane (p, q), by at most 45 degrees. */
  ghost predicate SmallTurn(n: nat, U: Mat, V: Mat, p: int, q: int) {
    exists c, s :: 0.0 < c && -c <= s <= c && c * c + s * s == 1.0 && Same(n, n, V, RotateColumns(U, p, q, c, s))
  }

  lemma NoTurn(n: nat, A: Mat, U: Mat, p: nat, q: nat)
    requires p < q < n
    ensures Spread(n, A, A, p, q) && SmallTurn(n, U, U, p, q)
  {
    assert Abs(0.0) == 0.0 <= Abs(A(p, q));
    var c, s := 1.0, 0.0;
    assert Same(n, n, U, RotateColumns(U, p, q, c, s));
    assert c * c + s * s == 1.0;
    hide RotateColumns;
    assert SmallTurn(n, U, U, p, q);
  }

  /** What a visit does to the diagonal, whichever branch it takes. */
  lemma VisitSpreads(n: nat, B: Mat, p: nat, q: nat, A: Mat, sqrt: real -> real)
    requires IsSqrt(sqrt) && p < q < n && !Negligible(B(p, q)) && Visited(n, Visit(B, p, q), A, sqrt)
    ensures Spread(n, B, A, p, q)
    ensures B(p, p) < B(q, q) ==> A(p, p) < B(p, p) && B(q, q) < A(q, q)
    ensures B(q, q) < B(p, p) ==> A(q, q) < B(q, q) && B(p, p) < A(p, p)
  {
    hide Step, Tangent, Cosine, Sine, Tau, Spread;
    var tau := TauOf(B, p, q);
    TangentIsSmall(tau, sqrt);
    TauEquation(B(p, p), B(q, q), B(p, q), tau);
    var t := Tangent(tau, sqrt);
    StepSpreads(n, B, p, q, tau, t, Cosine(t, sqrt), Sine(t, sqrt), A);
  }

  lemma RemovedEntry(n: nat, B: Mat, p: nat, q: nat, A: Mat, sqrt: real -> real)
    requires p < q < n && !Negligible(B(p, q)) && Visited(n, Visit(B, p, q), A, sqrt)
    ensures A(p, q) == 0.0 && A(q, p) == 0.0
  {
    hide Tangent, Cosine, Sine, Tau;
  }

  lemma VisitTurnsLittle(n: nat, B: Mat, p: nat, q: nat, U: Mat, V: Mat, sqrt: real -> real)
    requires IsSqrt(sqrt) && p < q < n
    requires var t := Tangent(TauOf(B, p, q), sqrt);
             Same(n, n, V, RotateColumns(U, p, q, Cosine(t, sqrt), Sine(t, sqrt)))
    ensures SmallTurn(n, U, V, p, q)
  {
    hide RotateColumns, Tangent, Cosine, Sine, Tau;
    var t := Tangent(TauOf(B, p, q), sqrt);
    TangentIsSmall(TauOf(B, p, q), sqrt);
    var c, s := Cosine(t, sqrt), Sine(t, sqrt);
    CosineOf(t, sqrt, c, s);
    AbsProduct(t, c, 1.0, c);
  }

  lemma VisitKeepsInvariant(n: nat, A0: Mat, B: Mat, U: Mat, exact: bool, p: nat, q: nat, A: Mat, V: Mat, sqrt: real -> real)
    requires IsSqrt(sqrt) && p < q < n && Invariant(n, A0, B, U, exact) && !Negligible(B(p, q))
    requires var t := Tangent(TauOf(B, p, q), sqrt);
             var c := Cosine(t, sqrt);
             Same(n, n, A, Step(B, p, q, t, c, Sine(t, sqrt))) && Same(n, n, V, RotateColumns(U, p, q, c, Sine(t, sqrt)))
    ensures Invariant(n, A0, A, V, exact && !SmallAngle(Visit(B, p, q)))
    ensures exact && Mass(A0, n) <= 2.0 ==> !SmallAngle(Visit(B, p, q))
  {
    hide Step, RotateColumns, Annihilates, Tangent, Cosine, Sine, Tau, Orthogonal, Off, Trace, Conjugate, Mass, SmallAngleBranch;
    var tau := TauOf(B, p, q);
    var t := Tangent(tau, sqrt);
    TangentAnnihilates(tau, sqrt);
    var c, s := Cosine(t, sqrt), Sine(t, sqrt);
    CosineOf(t, sqrt, c, s);
    TauEquation(B(p, p), B(q, q), B(p, q), tau);
    if exact && Mass(A0, n) <= 2.0 {
      LightMatrixIsExact(n, B, p, q, tau);
    }
    StepKeepsInvariant(n, A0, B, U, exact, p, q, tau, t, c, s, A, V);
  }

  lemma CosineOf(t: real, sqrt: real -> real, c: real, s: real)
    requires IsSqrt(sqrt) && c == Cosine(t, sqrt) && s == Sine(t, sqrt)
    ensures c > 0.0 && s == t * c && c * c + s * s == 1.0
  {
    ghost var square := t * t;
    SquareSign(t, square);
    var r := sqrt(1.0 + t * t);
    CosineSine(t, r, c, s);
  }

  lemma TauEquation(app: real, aqq: real, apq: real, tau: real)
    requires apq != 0.0 && tau == Tau(app, aqq, apq)
    ensures aqq - app == 2.0 * (tau * apq)
  {
    assert tau * (2.0 * apq) == aqq - app;
  }

  method Sweep(A: array2<real>, V: array2<real>, sqrt: real -> real, ghost A0: Mat, ghost exact: bool)
    returns (ghost visits: seq<Visit>)
    requires A != V && A.Length0 == A.Length1 == V.Length0 == V.Length1
    requires IsSqrt(sqrt)
    requires Invariant(A.Length0, A0, Entries(A), Entries(V), exact)
    modifies A, V
    ensures Invariant(A.Length0, A0, Entries(A), Entries(V), exact && AllExact(visits))
    ensures Leads(A.Length0, visits, old(Entries(A)), Entries(A), sqrt)
    ensures PlaneSeq(visits) == Planes(A.Length0)
    ensures exact && Mass(A0, A.Length0) <= 2.0 ==> AllExact(visits)
  {
    hide Invariant, Leads, AllExact, Mass, PlaneSeq, PlanesTo;
    var n := A.Length0;
    ghost var start := Entries(A);
    visits := [];
    NoVisits(n, start, sqrt);
    var p := 0;
    while p < n - 1
      invariant 0 <= p && (p < n || n == 0)
      invariant Invariant(n, A0, Entries(A), Entries(V), exact && AllExact(visits))
      invariant Leads(n, visits, start, Entries(A), sqrt)
      invariant PlaneSeq(visits) == if n == 0 then [] else PlanesTo(n, p)
      invariant exact && Mass(A0, n) <= 2.0 ==> AllExact(visits)
    {
      visits := SweepRow(A, V, p, sqrt, A0, exact, visits, start);
      NextRow(n, p);
      p := p + 1;
    }
  }

  lemma NoVisits(n: nat, start: Mat, sqrt: real -> real)
    ensures Leads(n, [], start, start, sqrt) && AllExact([]) && PlaneSeq([]) == []
    ensures n > 0 ==> PlanesTo(n, 0) == []
  {
  }

  lemma NextRow(n: nat, p: nat)
    requires p + 1 < n
    ensures PlanesTo(n, p + 1) == PlanesTo(n, p) + PlanesOfRow(n, p, n)
  {
  }

  /** The planes of one row. */
  method SweepRow(A: array2<real>, V: array2<real>, p: nat, sqrt: real -> real, ghost A0: Mat, ghost exact: bool,
                  ghost before: seq<Visit>, ghost start: Mat)
    returns (ghost visits: seq<Visit>)
    requires A != V && A.Length0 == A.Length1 == V.Length0 == V.Length1 && p + 1 < A.Length0
    requires IsSqrt(sqrt)
    requires Invariant(A.Length0, A0, Entries(A), Entries(V), exact && AllExact(before))
    requires Leads(A.Length0, before, start, Entries(A), sqrt)
    requires exact && Mass(A0, A.Length0) <= 2.0 ==> AllExact(before)
    modifies A, V
    ensures Invariant(A.Length0, A0, Entries(A), Entries(V), exact && AllExact(visits))
    ensures Leads(A.Length0, visits, start, Entries(A), sqrt)
    ensures PlaneSeq(visits) == PlaneSeq(before) + PlanesOfRow(A.Length0, p, A.Length0)
    ensures exact && Mass(A0, A.Length0) <= 2.0 ==> AllExact(visits)
  {
    hide Invariant, Leads, AllExact, Visited, SmallAngle, Mass, PlaneSeq, Spread, SmallTurn;
    var n := A.Length0;
    visits := before;
    for q := p + 1 to n
      invariant Invariant(n, A0, Entries(A), Entries(V), exact && AllExact(visits))
      invariant Leads(n, visits, start, Entries(A), sqrt)
      invariant PlaneSeq(visits) == PlaneSeq(before) + PlanesOfRow(n, p, q)
      invariant exact && Mass(A0, n) <= 2.0 ==> AllExact(visits)
    {
      ghost var v := Visit(Entries(A), p, q);
      ghost var exact' := VisitPlane(A, V, p, q, sqrt, A0, exact && AllExact(visits));
      PlaneSeqAppend(visits, v);
      LeadsOn(n, visits, v, start, Entries(A), sqrt);
      visits := visits + [v];
    }
  }

  lemma LeadsOn(n: nat, visits: seq<Visit>, v: Visit, from: Mat, to: Mat, sqrt: real -> real)
    requires Leads(n, visits, from, v.A, sqrt) && Visited(n, v, to, sqrt)
    ensures Leads(n, visits + [v], from, to, sqrt)
    ensures AllExact(visits + [v]) <==> AllExact(visits) && !SmallAngle(v)
  {
    hide Visited, SmallAngle;
    var more := visits + [v];
    assert more[..|visits|] == visits;
    assert AllExact(more) ==> AllExact(visits) && !SmallAngle(v) by {
      assert forall k :: 0 <= k < |visits| ==> more[k] == visits[k];
      assert more[|visits|] == v;
    }
  }

  /** The solver: eigenvectors and the rotated matrix keep the invariant, and the run is the one the source
      makes. A matrix of total mass at most two never takes the small-angle branch. */
  method JacobiEigen(A: array2<real>, eigenvalues: array<real>, V: array2<real>, maxSweeps: nat, sqrt: real -> real)
    returns (rc: int, ghost run: JacobiRun)
    requires A != V && A.Length0 == A.Length1 == V.Length0 == V.Length1 == eigenvalues.Length
    requires IsSqrt(sqrt) && Symmetric(Entries(A), A.Length0)
    modifies A, V, eigenvalues
    ensures rc == 0
    ensures Invariant(A.Length0, old(Entries(A)), Entries(A), Entries(V), run.Exact())
    ensures run.IsRun(A.Length0, old(Entries(A)), Entries(A), maxSweeps, sqrt)
    ensures Mass(old(Entries(A)), A.Length0) <= 2.0 ==> run.Exact()
    ensures |run.sweeps| < maxSweeps ==> Off(Entries(A), A.Length0) < 0.00000000000000000001
    ensures forall i :: 0 <= i < eigenvalues.Length ==> eigenvalues[i] == A[i, i]
    ensures A.Length0 == 2 && maxSweeps >= 1 ==>
              && (old(A[0, 0]) < old(A[1, 1]) ==> eigenvalues[0] < eigenvalues[1])
              && (old(A[1, 1]) < old(A[0, 0]) ==> eigenvalues[1] < eigenvalues[0])
  {
    hide Invariant, Off, Orthogonal, Conjugate, Trace, RowsOff, Mass, AllExact, Leads, Planes, PlaneSeq;
    var n := A.Length0;
    ghost var A0 := Entries(A);
    SetIdentity(V);
    run := JacobiRun([A0], []);
    InitialInvariant(n, A0, Entries(V));
    var sweep: nat := 0;
    var converged := false;
    while sweep < maxSweeps && !converged
      invariant |run.sweeps| == sweep <= maxSweeps && |run.states| == sweep + 1
      invariant Same(n, n, run.states[0], A0) && Entries(A) == run.states[sweep]
      invariant forall k :: 0 <= k < sweep ==> run.IsSweep(n, k, sqrt)
      invariant Invariant(n, A0, Entries(A), Entries(V), run.Exact())
      invariant Mass(A0, n) <= 2.0 ==> run.Exact()
      invariant converged ==> Off(Entries(A), n) < 0.00000000000000000001
      decreases maxSweeps - sweep, if converged then 0 else 1
    {
      var off := OffDiagonal(A);
      if off < 0.00000000000000000001 {
        converged := true;
      } else {
        ghost var before := run;
        ghost var visits := Sweep(A, V, sqrt, A0, run.Exact());
        run := JacobiRun(before.states + [Entries(A)], before.sweeps + [visits]);
        NextSweep(before, run, n, visits, sqrt);
        sweep := sweep + 1;
      }
    }
    ExtractDiagonal(A, eigenvalues);
    EndOfRun(n, run, A0, Entries(A), maxSweeps, sqrt);
    rc := 0;
  }

  lemma EndOfRun(n: nat, run: JacobiRun, A0: Mat, A: Mat, maxSweeps: nat, sqrt: real -> real)
    requires IsSqrt(sqrt) && run.IsRun(n, A0, A, maxSweeps, sqrt)
    ensures |run.sweeps| < maxSweeps ==> Off(A, n) < 0.00000000000000000001
    ensures n == 2 && maxSweeps >= 1 ==>
              (A0(0, 0) < A0(1, 1) ==> A(0, 0) < A(1, 1)) && (A0(1, 1) < A0(0, 0) ==> A(1, 1) < A(0, 0))
  {
    hide Off, JacobiRun.IsSweep;
    OffCong(n, A, run.states[|run.sweeps|]);
    if n == 2 && maxSweeps >= 1 {
      TwoByTwoEigenvalues(run, A0, A, maxSweeps, sqrt);
    }
  }

  lemma NextSweep(before: JacobiRun, run: JacobiRun, n: nat, visits: seq<Visit>, sqrt: real -> real)
    requires |before.states| == |before.sweeps| + 1 && |run.states| == |run.sweeps| + 1
    requires run.sweeps == before.sweeps + [visits] && before.states <= run.states
    requires forall k :: 0 <= k < |before.sweeps| ==> before.IsSweep(n, k, sqrt)
    requires Off(before.states[|before.sweeps|], n) >= 0.00000000000000000001 && PlaneSeq(visits) == Planes(n)
    requires Leads(n, visits, before.states[|before.sweeps|], run.states[|run.sweeps|], sqrt)
    ensures forall k :: 0 <= k < |run.sweeps| ==> run.IsSweep(n, k, sqrt)
    ensures run.Exact() <==> before.Exact() && AllExact(visits)
  {
    hide Off, AllExact, Leads, Planes;
    var m := |before.sweeps|;
    forall k | 0 <= k < |run.sweeps|
      ensures run.IsSweep(n, k, sqrt)
    {
      if k < m {
        assert before.IsSweep(n, k, sqrt);
      }
    }
    assert run.sweeps[m] == visits;
    assert forall k :: 0 <= k < m ==> run.sweeps[k] == before.sweeps[k];
  }

  method ExtractDiagonal(A: array2<real>, eigenvalues: array<real>)
    requires A.Length0 == A.Length1 == eigenvalues.Length
    modifies eigenvalues
    ensures forall i :: 0 <= i < eigenvalues.Length ==> eigenvalues[i] == A[i, i]
  {
    for i := 0 to eigenvalues.Length
      invariant forall k :: 0 <= k < i ==> eigenvalues[k] == A[k, k]
    {
      eigenvalues[i] := A[i, i];
    }
  }

  lemma InitialInvariant(n: nat, A0: Mat, V: Mat)
    requires Symmetric(A0, n) && Same(n, n, V, Identity)
    ensures Invariant(n, A0, A0, V, true)
  {
    IdentityOrthogonal(n, V);
    IdentityConjugate(n, A0, V);
  }

  // ---------------------------------------------------------------- where the small-angle branch is reached

  /** The first visit of a run: what is written into A is V^T A V exactly when the small-angle branch was
      not taken. */
  lemma FirstVisitIff(n: nat, A: Mat, p: nat, q: nat, sqrt: real -> real, A': Mat, V': Mat)
    requires IsSqrt(sqrt) && p < q < n && Symmetric(A, n) && !Negligible(A(p, q))
    requires Visited(n, Visit(A, p, q), A', sqrt)
    requires var t := Tangent(TauOf(A, p, q), sqrt);
             Same(n, n, V', RotateColumns(Identity, p, q, Cosine(t, sqrt), Sine(t, sqrt)))
    ensures Same(n, n, A', Conjugate(n, A, V')) <==> !SmallAngleBranch(TauOf(A, p, q))
  {
    hide Step, RotateColumns, RotateRows, Annihilates, Tangent, Cosine, Sine, Tau, Conjugate, SmallAngleBranch;
    var tau := TauOf(A, p, q);
    var t := Tangent(tau, sqrt);
    var c, s := Cosine(t, sqrt), Sine(t, sqrt);
    TangentAnnihilates(tau, sqrt);
    CosineOf(t, sqrt, c, s);
    TauEquation(A(p, p), A(q, q), A(p, q), tau);
    StepIsRotation(n, A, p, q, tau, t, c, s);
    IdentityConjugate(n, A, Identity);
    ConjugateRotates(n, A, Identity, p, q, c, s, V');
    RotateCong(n, Conjugate(n, A, Identity), A, p, q, c, s);
    RotateCong(n, RotateColumns(Conjugate(n, A, Identity), p, q, c, s), RotateColumns(A, p, q, c, s), p, q, c, s);
  }

  lemma OffOfTwo(M: Mat)
    ensures Off(M, 2) == M(0, 1) * M(0, 1)
  {
    var f, g := (j: int) => M(0, j) * M(0, j), (i: int) => RowOff(M, 2, i);
    assert Sum(1, 2, f) == Sum(1, 1, f) + f(1);
    assert g(1) == Sum(2, 2, (j: int) => M(1, j) * M(1, j)) == 0.0;
    assert Sum(0, 2, g) == Sum(0, 1, g) + g(1);
    assert Sum(0, 1, g) == Sum(0, 0, g) + g(0);
  }

  lemma PlanesOfTwo()
    ensures Planes(2) == [(0, 1)]
  {
    assert PlanesOfRow(2, 0, 1) == [];
    assert PlanesOfRow(2, 0, 2) == PlanesOfRow(2, 0, 1) + [(0, 1)];
    assert PlanesTo(2, 0) == [];
    assert PlanesTo(2, 1) == PlanesTo(2, 0) + PlanesOfRow(2, 0, 2);
  }

  lemma SquareIsLarge(x: real)
    requires x * x >= 0.00000000000000000001
    ensures !Negligible(x)
  {
    if Negligible(x) {
      AbsProduct(x, x, 0.000000000000001, 0.000000000000001);
    }
  }

  /** The one sweep of a 2 x 2 matrix that is not diagonal enough at the start. */
  lemma OneSweepOfTwo(run: JacobiRun, A0: Mat, A: Mat, maxSweeps: nat, sqrt: real -> real)
    requires run.IsRun(2, A0, A, maxSweeps, sqrt) && maxSweeps >= 1 && Off(A0, 2) >= 0.00000000000000000001
    ensures |run.sweeps| == 1 && |run.sweeps[0]| == 1
    ensures var v := run.sweeps[0][0];
            && v.p == 0 && v.q == 1 && Same(2, 2, v.A, A0) && !Negligible(A0(0, 1))
            && Visited(2, v, A, sqrt)
  {
    hide Off, Visited, Planes, SmallAngle;
    OffCong(2, run.states[0], A0);
    assert |run.sweeps| >= 1;
    assert run.IsSweep(2, 0, sqrt);
    PlanesOfTwo();
    var visits := run.sweeps[0];
    assert PlaneSeq(visits)[0] == (visits[0].p, visits[0].q);
    var v := visits[0];
    assert visits == [v];
    OneVisitLeads(2, v, run.states[0], run.states[1], sqrt);
    OffOfTwo(A0);
    SquareIsLarge(A0(0, 1));
    VisitClears(v, run.states[1], sqrt);
    OffOfTwo(run.states[1]);
    SweepStartsAbove(run, 2, A0, A, maxSweeps, sqrt, 1);
    VisitedCong(2, v, run.states[1], A, sqrt);
  }

  lemma OneVisitLeads(n: nat, v: Visit, from: Mat, to: Mat, sqrt: real -> real)
    requires Leads(n, [v], from, to, sqrt)
    ensures Visited(n, v, to, sqrt) && Same(n, n, from, v.A)
  {
    hide Visited;
    assert [v][..0] == [];
    assert Leads(n, [v][..0], from, v.A, sqrt);
  }

  lemma SweepStartsAbove(run: JacobiRun, n: nat, A0: Mat, A: Mat, maxSweeps: nat, sqrt: real -> real, k: nat)
    requires run.IsRun(n, A0, A, maxSweeps, sqrt)
    ensures k < |run.sweeps| ==> Off(run.states[k], n) >= 0.00000000000000000001
  {
    hide Off;
    if k < |run.sweeps| {
      assert run.IsSweep(n, k, sqrt);
    }
  }

  lemma VisitClears(v: Visit, after: Mat, sqrt: real -> real)
    requires v.p == 0 && v.q == 1 && Visited(2, v, after, sqrt) && !Negligible(v.A(0, 1))
    ensures after(0, 1) == 0.0 && after(0, 1) * after(0, 1) == 0.0
  {
    hide Tangent, Cosine, Sine, Tau;
  }

  lemma VisitedCong(n: nat, v: Visit, after: Mat, A: Mat, sqrt: real -> real)
    requires Visited(n, v, after, sqrt) && Same(n, n, A, after)
    ensures Visited(n, v, A, sqrt)
  {
    hide Tangent, Cosine, Sine, Tau, Step;
  }

  /** For a 2 x 2 matrix the run is exact exactly when the input is already diagonal enough or its own tau
      is not beyond 1e15. */
  lemma TwoByTwoExactIff(run: JacobiRun, A0: Mat, A: Mat, maxSweeps: nat, sqrt: real -> real)
    requires run.IsRun(2, A0, A, maxSweeps, sqrt) && maxSweeps >= 1
    ensures run.Exact() <==> Off(A0, 2) < 0.00000000000000000001 || !SmallAngleBranch(TauOf(A0, 0, 1))
  {
    hide Off, Visited, Planes, SmallAngleBranch, Tau;
    OffCong(2, run.states[0], A0);
    SweepStartsAbove(run, 2, A0, A, maxSweeps, sqrt, 0);
    if Off(A0, 2) >= 0.00000000000000000001 {
      OneSweepOfTwo(run, A0, A, maxSweeps, sqrt);
      var v := run.sweeps[0][0];
      assert SmallAngle(v) <==> SmallAngleBranch(TauOf(A0, 0, 1));
      assert run.Exact() <==> AllExact(run.sweeps[0]);
    }
  }

  // ---------------------------------------------------------------- eigenvalues of 2 x 2 matrices

  /** The larger diagonal entry of a 2 x 2 matrix becomes the larger eigenvalue; equal entries are ordered by
      the sign of the other one. An exact run ends on the two roots of the characteristic polynomial. */
  lemma TwoByTwoEigenvalues(run: JacobiRun, A0: Mat, A: Mat, maxSweeps: nat, sqrt: real -> real)
    requires IsSqrt(sqrt) && run.IsRun(2, A0, A, maxSweeps, sqrt) && maxSweeps >= 1
    ensures A0(0, 0) < A0(1, 1) ==> A(0, 0) <= A0(0, 0) && A0(1, 1) <= A(1, 1)
    ensures A0(1, 1) < A0(0, 0) ==> A(1, 1) <= A0(1, 1) && A0(0, 0) <= A(0, 0)
    ensures A(0, 0) + A(1, 1) == A0(0, 0) + A0(1, 1)
    ensures Off(A0, 2) < 0.00000000000000000001 ==> A(0, 0) == A0(0, 0) && A(1, 1) == A0(1, 1)
    ensures Off(A0, 2) >= 0.00000000000000000001 && A0(0, 0) == A0(1, 1) ==>
              A(0, 0) == A0(0, 0) - A0(0, 1) && A(1, 1) == A0(1, 1) + A0(0, 1)
    ensures Off(A0, 2) >= 0.00000000000000000001 && run.Exact() ==>
              A(0, 0) * A(1, 1) == A0(0, 0) * A0(1, 1) - A0(0, 1) * A0(0, 1)
  {
    hide Visited, Off, SmallAngleBranch, Tau, Step;
    TwoByTwoExactIff(run, A0, A, maxSweeps, sqrt);
    OffCong(2, run.states[0], A0);
    if Off(A0, 2) >= 0.00000000000000000001 {
      OneSweepOfTwo(run, A0, A, maxSweeps, sqrt);
      VisitOfSame(run.sweeps[0][0], A0, A, sqrt);
      VisitSpreads(2, A0, 0, 1, A, sqrt);
      VisitOfTwo(A0, A, sqrt);
    } else {
      SweepStartsAbove(run, 2, A0, A, maxSweeps, sqrt, 0);
    }
  }

  lemma VisitOfTwo(B: Mat, A: Mat, sqrt: real -> real)
    requires IsSqrt(sqrt) && !Negligible(B(0, 1)) && Visited(2, Visit(B, 0, 1), A, sqrt)
    ensures B(0, 0) == B(1, 1) ==> A(0, 0) == B(0, 0) - B(0, 1) && A(1, 1) == B(1, 1) + B(0, 1)
    ensures A(0, 0) + A(1, 1) == B(0, 0) + B(1, 1)
    ensures !SmallAngleBranch(TauOf(B, 0, 1)) ==> A(0, 0) * A(1, 1) == B(0, 0) * B(1, 1) - B(0, 1) * B(0, 1)
  {
    hide Tangent, Cosine, Sine, Tau, SmallAngleBranch;
    var tau := TauOf(B, 0, 1);
    var t := Tangent(tau, sqrt);
    TangentIsSmall(tau, sqrt);
    TangentAnnihilates(tau, sqrt);
    TauEquation(B(0, 0), B(1, 1), B(0, 1), tau);
    StepDiagonal(B, 0, 1, t, Cosine(t, sqrt), Sine(t, sqrt));
    hide Step;
    TurnSign(B(0, 0), B(1, 1), B(0, 1), tau, t, Times(t, B(0, 1)));
    if !SmallAngleBranch(tau) {
      RootsMultiply(B(0, 0), B(1, 1), B(0, 1), tau, t, A(0, 0), A(1, 1));
    }
  }

  lemma RootsMultiply(app: real, aqq: real, b: real, tau: real, t: real, x: real, y: real)
    requires aqq - app == 2.0 * (tau * b) && Annihilates(tau, t)
    requires x == app - Times(t, b) && y == aqq + Times(t, b)
    ensures x * y == app * aqq - b * b
  {
    var m, bb := t * b, b * b;
    assert m * m == (t * t) * bb;
    assert (tau * b) * m == (tau * t) * bb;
    assert (t * t + 2.0 * (tau * t)) * bb == bb;
    assert x * y == app * aqq - m * (aqq - app) - m * m;
    assert m * (aqq - app) == 2.0 * ((tau * b) * m);
  }

  /** A covariance matrix that does reach the branch. */
  ghost function Lopsided(): Mat {
    (i: int, j: int) => if i == 1 && j == 1 then 4000000000000000.0 else 1.0
  }

  lemma LopsidedIsCovariance()
    ensures Symmetric(Lopsided(), 2) && PositiveSemidefinite(2, Lopsided())
  {
    var M := Lopsided();
    forall v: int -> real
      ensures Bilinear(2, M, v, v) >= 0.0
    {
      hide Dot;
      TwoEntryDot(v, Apply(2, M, v));
      TwoEntryDot(v, Row(M, 0));
      TwoEntryDot(v, Row(M, 1));
      LopsidedForm(v(0), v(1), v(0) + v(1), v(0) + v(1) * 4000000000000000.0);
    }
  }

  lemma TwoEntryDot(u: int -> real, w: int -> real)
    ensures Dot(2, u, w) == u(0) * w(0) + u(1) * w(1)
  {
    var f := (k: int) => u(k) * w(k);
    assert Sum(0, 2, f) == Sum(0, 1, f) + f(1);
    assert Sum(0, 1, f) == Sum(0, 0, f) + f(0);
  }

  lemma LopsidedForm(x: real, y: real, first: real, second: real)
    requires first == x + y && second == x + y * 4000000000000000.0
    ensures x * first + y * second >= 0.0
  {
    var xx, xy, yy := x * x, x * y, y * y;
    assert x * first == xx + xy && y * second == xy + 4000000000000000.0 * yy;
    SquareSign(x + y, (x + y) * (x + y));
    assert (x + y) * (x + y) == xx + 2.0 * xy + yy;
    SquareSign(y, yy);
  }

  /** On it no run is exact, and after its first visit A is not V^T A V. */
  lemma LopsidedIsNotExact(run: JacobiRun, A: Mat, V: Mat, maxSweeps: nat, sqrt: real -> real)
    requires IsSqrt(sqrt) && maxSweeps >= 1 && run.IsRun(2, Lopsided(), A, maxSweeps, sqrt)
    requires var t := Tangent(TauOf(Lopsided(), 0, 1), sqrt);
             Same(2, 2, V, RotateColumns(Identity, 0, 1, Cosine(t, sqrt), Sine(t, sqrt)))
    ensures !run.Exact() && !Same(2, 2, A, Conjugate(2, Lopsided(), V))
  {
    hide Visited, RotateColumns, Tangent, Cosine, Sine, Conjugate, Off;
    var M := Lopsided();
    LopsidedTau();
    OffOfTwo(M);
    TwoByTwoExactIff(run, M, A, maxSweeps, sqrt);
    OneSweepOfTwo(run, M, A, maxSweeps, sqrt);
    VisitOfSame(run.sweeps[0][0], M, A, sqrt);
    FirstVisitIff(2, M, 0, 1, sqrt, A, V);
  }

  lemma LopsidedTau()
    ensures SmallAngleBranch(TauOf(Lopsided(), 0, 1))
  {
  }

  lemma VisitOfSame(v: Visit, M: Mat, A: Mat, sqrt: real -> real)
    requires v.p == 0 && v.q == 1 && Same(2, 2, v.A, M) && Visited(2, v, A, sqrt)
    ensures Visited(2, Visit(M, 0, 1), A, sqrt)
  {
    hide Tangent, Cosine, Sine, Tau;
  }
}
