/** The bridge heartbeat (bridge/heartbeat/sp_bridge_heartbeat.c, `publish_state`, `heartbeat_loop`,
    `sp_bridge_heartbeat_start`): streak counters with hysteresis. A beat is acknowledged or missed; the
    published state turns out to be a function of the history of beats alone. */
module Heartbeats {

  datatype State = Offline | Degraded | Online

  // ---------------------------------------------------------------- what a history says

  /** Consecutive acks (ack) or misses (!ack) at the end of a history. */
  function Trailing(h: seq<bool>, ack: bool): nat {
    if h == [] || h[|h| - 1] != ack then 0 else Trailing(h[..|h| - 1], ack) + 1
  }

  /** Three acknowledged beats end after beat k. */
  predicate ThreeAcksEnd(h: seq<bool>, k: int) {
    3 <= k <= |h| && h[k - 1] && h[k - 2] && h[k - 3]
  }

  /** The beats since the last three acks in a row, or since the start. */
  ghost function Since(h: seq<bool>): seq<bool> {
    if h == [] || ThreeAcksEnd(h, |h|) then [] else Since(h[..|h| - 1]) + [h[|h| - 1]]
  }

  /** n misses in a row occur. */
  ghost predicate MissRun(h: seq<bool>, n: nat) {
    exists i :: 0 <= i && MissesFrom(h, i, n)
  }

  predicate MissesFrom(h: seq<bool>, i: nat, n: nat) {
    i + n <= |h| && forall k :: i <= k < i + n ==> !h[k]
  }

  /** The state a history leads to. */
  ghost function StateOf(h: seq<bool>): State {
    if !MissRun(Since(h), 2) then Online else if MissRun(Since(h), 5) then Offline else Degraded
  }

  /** Since(h) is the part of h after the last place where three acks end. */
  lemma {:induction false} SinceIsLast(h: seq<bool>) returns (k: nat)
    ensures k <= |h| && Since(h) == h[k..]
    ensures k == 0 || ThreeAcksEnd(h, k)
    ensures forall j :: k < j <= |h| ==> !ThreeAcksEnd(h, j)
  {
    if h == [] {
      k := 0;
    } else if ThreeAcksEnd(h, |h|) {
      k := |h|;
    } else {
      hide ThreeAcksEnd;
      var init := h[..|h| - 1];
      k := SinceIsLast(init);
      EndsAgree(h, k);
      assert h[k..] == init[k..] + [h[|h| - 1]];
      forall j | k < j <= |h|
        ensures !ThreeAcksEnd(h, j)
      {
        if j < |h| {
          EndsAgree(h, j);
        }
      }
    }
  }

  lemma EndsAgree(h: seq<bool>, j: nat)
    requires j < |h|
    ensures ThreeAcksEnd(h[..|h| - 1], j) == ThreeAcksEnd(h, j)
  {
  }

  /** The last run of misses: one of n ends the history exactly when n or more are trailing. */
  lemma {:induction false} TrailingMisses(h: seq<bool>, n: nat)
    ensures Trailing(h, false) >= n <==> n <= |h| && MissesFrom(h, |h| - n, n)
    decreases h
  {
    if h != [] && !h[|h| - 1] && n > 0 {
      var init := h[..|h| - 1];
      TrailingMisses(init, n - 1);
      assert n <= |h| ==> (MissesFrom(h, |h| - n, n) <==> MissesFrom(init, |init| - (n - 1), n - 1));
    }
  }

  /** Another beat completes a run of misses exactly when enough misses are trailing. */
  lemma MissRunNext(h: seq<bool>, b: bool, n: nat)
    requires n > 0
    ensures MissRun(h + [b], n) <==> MissRun(h, n) || Trailing(h + [b], false) >= n
  {
    var next := h + [b];
    TrailingMisses(next, n);
    if MissRun(next, n) {
      var i :| 0 <= i && MissesFrom(next, i, n);
      if i + n <= |h| {
        assert MissesFrom(h, i, n);
      } else {
        assert i == |next| - n;
      }
    }
    if MissRun(h, n) {
      var i :| 0 <= i && MissesFrom(h, i, n);
      assert MissesFrom(next, i, n);
    }
  }

  /** The misses at the end all come after the last three acks. */
  lemma {:induction false} TrailingSince(h: seq<bool>)
    ensures Trailing(Since(h), false) == Trailing(h, false)
  {
    if h != [] && !ThreeAcksEnd(h, |h|) {
      var init, last := h[..|h| - 1], h[|h| - 1];
      TrailingSince(init);
      assert (Since(init) + [last])[..|Since(init)|] == Since(init);
    }
  }

  lemma TrailingNext(h: seq<bool>, b: bool, ack: bool)
    ensures Trailing(h + [b], ack) == if b == ack then Trailing(h, ack) + 1 else 0
  {
    assert (h + [b])[..|h|] == h;
  }

  lemma ThreeAcks(h: seq<bool>)
    ensures ThreeAcksEnd(h, |h|) <==> Trailing(h, true) >= 3
  {
    if |h| >= 1 && h[|h| - 1] {
      var a := h[..|h| - 1];
      if |a| >= 1 && a[|a| - 1] {
        var c := a[..|a| - 1];
        assert Trailing(h, true) == Trailing(c, true) + 2;
      }
    }
  }

  /** Five misses in a row contain two. */
  lemma FiveContainTwo(h: seq<bool>)
    requires MissRun(h, 5)
    ensures MissRun(h, 2)
  {
    var i :| 0 <= i && MissesFrom(h, i, 5);
    assert MissesFrom(h, i, 2);
  }

  /** How the state follows the history. */
  lemma StateNext(h: seq<bool>, b: bool)
    ensures StateOf(h + [b]) ==
            if Trailing(h + [b], true) >= 3 then Online
            else if StateOf(h) == Offline || Trailing(h + [b], false) >= 5 then Offline
            else if StateOf(h) == Degraded || Trailing(h + [b], false) >= 2 then Degraded
            else Online
  {
    var next := h + [b];
    hide Trailing, MissRun, ThreeAcksEnd;
    assert next[..|next| - 1] == h;
    ThreeAcks(next);
    if ThreeAcksEnd(next, |next|) {
      NoRun();
    } else {
      TrailingSince(next);
      MissRunNext(Since(h), b, 2);
      MissRunNext(Since(h), b, 5);
      if MissRun(Since(h), 5) {
        FiveContainTwo(Since(h));
      }
      if MissRun(Since(next), 5) {
        FiveContainTwo(Since(next));
      }
    }
  }

  lemma NoRun()
    ensures !MissRun([], 2)
  {
  }

  /** Misses in a row since the last three acks in an online history are fewer than two. */
  lemma {:induction false} OnlineMisses(h: seq<bool>)
    ensures StateOf(h) == Online ==> Trailing(h, false) < 2
    ensures StateOf(h) == Degraded ==> Trailing(h, false) < 5
    ensures StateOf(h) != Online ==> Trailing(h, true) < 3
  {
    if h == [] {
      NoRun();
    } else {
      var init, last := h[..|h| - 1], h[|h| - 1];
      assert h == init + [last];
      OnlineMisses(init);
      StateNext(init, last);
      TrailingNext(init, last, false);
      TrailingNext(init, last, true);
    }
  }

  /** A connection never goes from online to offline in one beat. */
  lemma NoSuddenOffline(h: seq<bool>, b: bool)
    ensures !(StateOf(h) == Online && StateOf(h + [b]) == Offline)
  {
    OnlineMisses(h);
    StateNext(h, b);
    TrailingNext(h, b, false);
  }

  ghost function Count(h: seq<bool>, ack: bool): nat {
    if h == [] then 0 else Count(h[..|h| - 1], ack) + if h[|h| - 1] == ack then 1 else 0
  }

  lemma {:induction false} CountsAddUp(h: seq<bool>)
    ensures Count(h, true) + Count(h, false) == |h|
  {
    if h != [] {
      CountsAddUp(h[..|h| - 1]);
    }
  }

  // ---------------------------------------------------------------- the counters

  class Heartbeat {
    var acks: nat
    var misses: nat
    var missStreak: nat
    var ackStreak: nat
    var state: State
    /** The states handed to the callback, in order. */
    var published: seq<State>
    ghost var history: seq<bool>

    ghost predicate Valid()
      reads this
    {
      && acks == Count(history, true) && misses == Count(history, false)
      && missStreak == Trailing(history, false)
      && state == StateOf(history)
      && ackStreak == (if state == Online then 0 else Trailing(history, true))
      && state == (if published == [] then Online else published[|published| - 1])
      && (forall i :: 0 < i < |published| ==> published[i] != published[i - 1])
      && (published != [] ==> published[0] != Online)
    }

    constructor ()
      ensures Valid() && history == [] && state == Online && published == []
    {
      acks, misses, missStreak, ackStreak, state := 0, 0, 0, 0, Online;
      published, history := [], [];
      NoRun();
    }

    method PublishState(next: State)
      modifies this`state, this`published
      ensures state == next
      ensures published == if old(state) == next then old(published) else old(published) + [next]
    {
      if state == next {
        return;
      }
      state := next;
      published := published + [next];
    }

    /** One turn of the loop, after the exchange. */
    method Beat(ok: bool)
      requires Valid()
      modifies this
      ensures Valid() && history == old(history) + [ok]
      ensures published == if state == old(state) then old(published) else old(published) + [state]
      ensures !(old(state) == Online && state == Offline)
      ensures acks + misses == |history|
    {
      ghost var next := history + [ok];
      hide Trailing, StateOf, Count;
      StateNext(history, ok);
      OnlineMisses(history);
      TrailingNext(history, ok, true);
      TrailingNext(history, ok, false);
      CountNext(history, ok);
      CountsAddUp(next);
      if ok {
        acks := acks + 1;
        missStreak := 0;
        var cur := state;
        if cur != Online {
          ackStreak := ackStreak + 1;
          if ackStreak >= 3 {
            PublishState(Online);
            ackStreak := 0;
          }
        } else {
          ackStreak := 0;
        }
      } else {
        misses := misses + 1;
        ackStreak := 0;
        missStreak := missStreak + 1;
        var cur := state;
        if cur == Online && missStreak >= 2 {
          PublishState(Degraded);
        }
        if cur != Offline && missStreak >= 5 {
          PublishState(Offline);
        }
      }
      history := next;
    }
  }

  lemma CountNext(h: seq<bool>, b: bool)
    ensures Count(h + [b], true) == Count(h, true) + (if b then 1 else 0)
    ensures Count(h + [b], false) == Count(h, false) + (if b then 0 else 1)
  {
    assert (h + [b])[..|h|] == h;
  }

  /** After any run of beats the published state is what the history says. */
  method Run(beats: seq<bool>) returns (hb: Heartbeat)
    ensures fresh(hb) && hb.history == beats && hb.state == StateOf(beats)
    ensures hb.acks + hb.misses == |beats|
    ensures hb.acks == Count(beats, true)
  {
    hide StateOf, Count;
    hb := new Heartbeat();
    CountsAddUp([]);
    for i := 0 to |beats|
      invariant hb.Valid() && fresh(hb) && hb.history == beats[..i]
    {
      assert beats[..i + 1] == beats[..i] + [beats[i]];
      hb.Beat(beats[i]);
    }
    assert beats[..|beats|] == beats;
    CountsAddUp(beats);
  }
}
