/** Speculative decoding (desktop/beast_canyon/sp_beast_canyon.c, `beast_argmax` and the decode loop of
    `sp_beast_generate`). The transformer is an abstract function of the token history and never fails;
    the drafter is arbitrary: it may be right, wrong, short, empty or failing at every step. */
module Speculative {

  // ---------------------------------------------------------------- argmax

  /** i is the first index of the largest entry. */
  ghost predicate IsFirstMax(x: seq<real>, i: int) {
    && 0 <= i < |x|
    && (forall k :: 0 <= k < |x| ==> x[k] <= x[i])
    && (forall k :: 0 <= k < i ==> x[k] < x[i])
  }

  lemma {:induction false} FirstMaxExists(x: seq<real>)
    requires |x| > 0
    ensures exists i :: IsFirstMax(x, i)
  {
    if |x| == 1 {
      assert IsFirstMax(x, 0);
    } else {
      var n, init := |x| - 1, x[..|x| - 1];
      FirstMaxExists(init);
      var i :| IsFirstMax(init, i);
      assert forall k :: 0 <= k < n ==> x[k] == init[k];
      assert if x[n] > x[i] then IsFirstMax(x, n) else IsFirstMax(x, i);
    }
  }

  lemma FirstMaxUnique(x: seq<real>, i: int, j: int)
    requires IsFirstMax(x, i) && IsFirstMax(x, j)
    ensures i == j
  {
    assert x[i] == x[j];
  }

  ghost function ArgMax(x: seq<real>): (i: int)
    requires |x| > 0
    ensures IsFirstMax(x, i)
  {
    FirstMaxExists(x);
    var i :| IsFirstMax(x, i);
    i
  }

  method BeastArgmax(x: array<real>) returns (best: nat)
    requires x.Length > 0
    ensures best == ArgMax(x[..]) && best < x.Length
    ensures forall k :: 0 <= k < x.Length ==> if k < best then x[k] < x[best] else x[k] <= x[best]
  {
    best := 0;
    for i := 1 to x.Length
      invariant 0 <= best < i
      invariant forall k :: 0 <= k < i ==> x[k] <= x[best]
      invariant forall k :: 0 <= k < best ==> x[k] < x[best]
    {
      if x[i] > x[best] {
        best := i;
      }
    }
    FirstMaxUnique(x[..], best, ArgMax(x[..]));
  }

  // ---------------------------------------------------------------- greedy decoding

  predicate IsEos(token: int) {
    token == 0 || token == 2 || token == 151643 || token == 151645
  }

  /** Logits after a token history. */
  type Model = seq<int> -> seq<real>

  ghost predicate ModelValid(model: Model, vocab: nat) {
    vocab > 0 && forall h: seq<int> :: |model(h)| == vocab
  }

  /** The first n tokens of the greedy stream after a prompt. */
  ghost function Greedy(model: Model, vocab: nat, prompt: seq<int>, n: nat): (g: seq<int>)
    requires ModelValid(model, vocab)
    ensures |g| == n
  {
    if n == 0 then []
    else
      var before := Greedy(model, vocab, prompt, n - 1);
      before + [ArgMax(model(prompt + before))]
  }

  lemma {:induction false} GreedyPrefix(model: Model, vocab: nat, prompt: seq<int>, m: nat, n: nat)
    requires ModelValid(model, vocab) && m <= n
    ensures Greedy(model, vocab, prompt, m) == Greedy(model, vocab, prompt, n)[..m]
    decreases n
  {
    if m < n {
      GreedyPrefix(model, vocab, prompt, m, n - 1);
    }
  }

  /** Every token of the stream is the best one after the prompt and the tokens before it. */
  lemma GreedyToken(model: Model, vocab: nat, prompt: seq<int>, n: nat, k: nat)
    requires ModelValid(model, vocab) && k < n
    ensures var g := Greedy(model, vocab, prompt, n);
            IsFirstMax(model(prompt + g[..k]), g[k])
  {
    GreedyPrefix(model, vocab, prompt, k + 1, n);
    GreedyPrefix(model, vocab, prompt, k, n);
  }

  // ---------------------------------------------------------------- the engine

  /** What the drafter answers at one step. */
  datatype Draft = Failed | Drafted(tokens: seq<int>)

  class Engine {
    const model: Model
    const vocab: nat
    const logits: array<real>
    var totalTokens: nat
    /** What the model has been fed: the contents its caches stand for. */
    var history: seq<int>

    ghost predicate Valid()
      reads this, logits
    {
      ModelValid(model, vocab) && logits.Length == vocab && logits[..] == model(history)
    }

    /** An engine prefilled with a prompt. */
    constructor (model: Model, vocab: nat, prompt: seq<int>)
      requires ModelValid(model, vocab)
      ensures Valid() && history == prompt && this.model == model && this.vocab == vocab && totalTokens == 0 && fresh(logits)
    {
      this.model, this.vocab, totalTokens := model, vocab, 0;
      var l := model(prompt);
      logits := new real[vocab](i requires 0 <= i < |l| => l[i]);
      history := prompt;
    }

    /** `sp_beast_forward`, and the counter its callers advance. */
    method Forward(token: int)
      requires Valid()
      modifies this, logits
      ensures Valid() && history == old(history) + [token] && totalTokens == old(totalTokens) + 1
    {
      history := history + [token];
      totalTokens := totalTokens + 1;
      var l := model(history);
      forall i | 0 <= i < logits.Length {
        logits[i] := l[i];
      }
    }
  }

  /** The output is the greedy stream so far and all of it has been fed to the model. */
  ghost predicate InStep(engine: Engine, prompt: seq<int>, output: seq<int>)
    reads engine, engine.logits
  {
    engine.Valid() && output == Greedy(engine.model, engine.vocab, prompt, |output|) && engine.history == prompt + output
  }

  lemma NextGreedy(model: Model, vocab: nat, prompt: seq<int>, output: seq<int>, token: int)
    requires ModelValid(model, vocab) && output == Greedy(model, vocab, prompt, |output|)
    requires token == ArgMax(model(prompt + output))
    ensures output + [token] == Greedy(model, vocab, prompt, |output| + 1)
  {
  }

  /** Keep the drafts that agree with the model, up to the first that does not, an end token or the limit. */
  method VerifyDrafts(engine: Engine, output: seq<int>, tokens: seq<int>, maxTokens: int, ghost prompt: seq<int>)
      returns (longer: seq<int>, nAccepted: nat)
    requires InStep(engine, prompt, output) && |output| <= maxTokens
    modifies engine, engine.logits
    ensures InStep(engine, prompt, longer) && |longer| <= maxTokens
    ensures nAccepted <= |tokens| && longer == output + tokens[..nAccepted]
    ensures forall d :: 0 <= d < nAccepted - 1 ==> !IsEos(tokens[d])
    ensures nAccepted == |tokens| || |longer| == maxTokens || (nAccepted > 0 && IsEos(tokens[nAccepted - 1]))
            || tokens[nAccepted] != ArgMax(engine.model(prompt + longer))
    ensures engine.totalTokens == old(engine.totalTokens) + nAccepted
  {
    hide Greedy, IsFirstMax, IsEos;
    longer, nAccepted := output, 0;
    var d := 0;
    while d < |tokens| && |longer| < maxTokens
      invariant 0 <= d == nAccepted <= |tokens| && |longer| <= maxTokens
      invariant InStep(engine, prompt, longer) && longer == output + tokens[..nAccepted]
      invariant forall i :: 0 <= i < nAccepted ==> !IsEos(tokens[i])
      invariant engine.totalTokens == old(engine.totalTokens) + nAccepted
    {
      var hostPred := BeastArgmax(engine.logits);
      if hostPred != tokens[d] {
        break;
      }
      NextGreedy(engine.model, engine.vocab, prompt, longer, hostPred);
      assert tokens[..nAccepted + 1] == tokens[..nAccepted] + [hostPred];
      longer := longer + [hostPred];
      nAccepted := nAccepted + 1;
      engine.Forward(hostPred);
      d := d + 1;
      if IsEos(hostPred) {
        break;
      }
    }
  }

  // ---------------------------------------------------------------- rounds

  /** One step of the loop that does not end the text: the place its own token takes, and how many drafted
      tokens were kept after it. */
  datatype Round = Round(start: nat, kept: nat) {
    function Next(): nat { start + 1 + kept }
  }

  /** What the drafter has to offer at a step. */
  function Offer(drafting: bool, draft: Draft): seq<int> {
    if drafting && draft.Drafted? then draft.tokens else []
  }

  /** A round against the greedy stream g, which is as long as the limit: of the offer the longest agreeing
      part is kept, but nothing past an end token or the limit. */
  ghost predicate IsRound(g: seq<int>, offer: seq<int>, r: Round) {
    && r.Next() <= |g| && !IsEos(g[r.start])
    && r.kept <= |offer| && g[r.start + 1..r.Next()] == offer[..r.kept]
    && (forall d :: 0 <= d < r.kept - 1 ==> !IsEos(offer[d]))
    && (r.kept == |offer| || r.Next() == |g| || (r.kept > 0 && IsEos(offer[r.kept - 1])) || g[r.Next()] != offer[r.kept])
  }

  /** Where the rounds so far end. */
  function End(rounds: seq<Round>): nat {
    if rounds == [] then 0 else rounds[|rounds| - 1].Next()
  }

  /** Rounds that follow one another from the start, round s with the drafter's answer at step s. */
  ghost predicate AreRounds(g: seq<int>, drafting: bool, drafts: nat -> Draft, rounds: seq<Round>)
    decreases |rounds|
  {
    rounds != [] ==>
      var n := |rounds| - 1;
      && AreRounds(g, drafting, drafts, rounds[..n])
      && rounds[n].start == End(rounds[..n])
      && IsRound(g, Offer(drafting, drafts(n)), rounds[n])
  }

  /** A whole run with output of the given length: after the rounds the limit is reached, or the loop's own
      next token ends the text. */
  ghost predicate IsRun(g: seq<int>, drafting: bool, drafts: nat -> Draft, rounds: seq<Round>, length: nat) {
    && AreRounds(g, drafting, drafts, rounds) && End(rounds) <= |g|
    && if End(rounds) == |g| then length == |g| else IsEos(g[End(rounds)]) && length == End(rounds) + 1
  }

  /** A round is determined by where it starts, the stream and the offer. */
  lemma RoundUnique(g: seq<int>, offer: seq<int>, r: Round, r': Round)
    requires IsRound(g, offer, r) && IsRound(g, offer, r') && r.start == r'.start
    ensures r == r'
  {
    hide IsEos;
    if r.kept < r'.kept {
      KeptAgrees(g, offer, r', r.kept);
    } else if r'.kept < r.kept {
      KeptAgrees(g, offer, r, r'.kept);
    }
  }

  lemma KeptAgrees(g: seq<int>, offer: seq<int>, r: Round, k: nat)
    requires IsRound(g, offer, r) && k < r.kept
    ensures g[r.start + 1 + k] == offer[k]
  {
    assert g[r.start + 1..r.Next()][k] == offer[..r.kept][k];
  }

  /** A run is determined by the stream and the drafter: its rounds cannot be made up. */
  lemma RunUnique(g: seq<int>, drafting: bool, drafts: nat -> Draft, rounds: seq<Round>, length: nat,
                  rounds': seq<Round>, length': nat)
    requires IsRun(g, drafting, drafts, rounds, length) && IsRun(g, drafting, drafts, rounds', length')
    ensures rounds == rounds' && length == length'
  {
    if |rounds| <= |rounds'| {
      PrefixOfRounds(g, drafting, drafts, rounds, rounds');
    } else {
      PrefixOfRounds(g, drafting, drafts, rounds', rounds);
    }
  }

  /** Of two lists of rounds the shorter is a prefix; and if it ends a run the longer goes no further. */
  lemma {:induction false} PrefixOfRounds(g: seq<int>, drafting: bool, drafts: nat -> Draft, rounds: seq<Round>, more: seq<Round>)
    requires AreRounds(g, drafting, drafts, rounds) && AreRounds(g, drafting, drafts, more) && |rounds| <= |more|
    ensures rounds == more[..|rounds|]
    ensures |rounds| < |more| ==> End(rounds) < |g| && !IsEos(g[End(rounds)])
    decreases |more|
  {
    hide IsEos, IsRound, AreRounds;
    if |rounds| < |more| {
      LastRound(g, drafting, drafts, more);
      var n := |more| - 1;
      PrefixOfRounds(g, drafting, drafts, rounds, more[..n]);
      assert more[..n][..|rounds|] == more[..|rounds|];
      RoundStarts(g, Offer(drafting, drafts(n)), more[n]);
    } else if rounds != [] {
      LastRound(g, drafting, drafts, rounds);
      LastRound(g, drafting, drafts, more);
      var n := |more| - 1;
      PrefixOfRounds(g, drafting, drafts, rounds[..n], more[..n]);
      assert more[..n][..n] == more[..n];
      RoundUnique(g, Offer(drafting, drafts(n)), rounds[n], more[n]);
      assert rounds == rounds[..n] + [rounds[n]] && more == more[..n] + [more[n]];
    }
  }

  lemma LastRound(g: seq<int>, drafting: bool, drafts: nat -> Draft, rounds: seq<Round>)
    requires AreRounds(g, drafting, drafts, rounds) && rounds != []
    ensures var n := |rounds| - 1;
            && AreRounds(g, drafting, drafts, rounds[..n]) && rounds[n].start == End(rounds[..n])
            && IsRound(g, Offer(drafting, drafts(n)), rounds[n])
  {
  }

  lemma RoundStarts(g: seq<int>, offer: seq<int>, r: Round)
    requires IsRound(g, offer, r)
    ensures r.start < |g| && !IsEos(g[r.start])
  {
  }

  /** Place k of the output was filled by a draft: the one at index d of the answer at step s. */
  ghost predicate Drafted(rounds: seq<Round>, k: int, s: int, d: int) {
    0 <= s < |rounds| && 0 <= d < rounds[s].kept && k == rounds[s].start + 1 + d
  }

  /** Some drafted token kept before the last place of the limit ends the text. */
  ghost predicate EndDraftedEarly(g: seq<int>, rounds: seq<Round>) {
    exists k, s, d :: Drafted(rounds, k, s, d) && 0 <= k < |g| - 1 && IsEos(g[k])
  }

  /** A kept draft is the drafter's own token. */
  lemma {:induction false} DraftedToken(g: seq<int>, drafting: bool, drafts: nat -> Draft, rounds: seq<Round>, k: int, s: int, d: int)
    requires AreRounds(g, drafting, drafts, rounds) && Drafted(rounds, k, s, d)
    ensures 0 <= k < End(rounds) <= |g| && d < |Offer(drafting, drafts(s))| && g[k] == Offer(drafting, drafts(s))[d]
    decreases |rounds|
  {
    hide IsEos;
    var n := |rounds| - 1;
    var r := rounds[n];
    if s < n {
      assert Drafted(rounds[..n], k, s, d);
      DraftedToken(g, drafting, drafts, rounds[..n], k, s, d);
    } else {
      KeptAgrees(g, Offer(drafting, drafts(n)), r, d);
    }
  }

  /** Every end token among the rounds was drafted. */
  lemma {:induction false} EndsAreDrafted(g: seq<int>, drafting: bool, drafts: nat -> Draft, rounds: seq<Round>, k: nat)
      returns (s: nat, d: nat)
    requires AreRounds(g, drafting, drafts, rounds) && k < End(rounds) && End(rounds) <= |g| && IsEos(g[k])
    ensures Drafted(rounds, k, s, d)
    decreases |rounds|
  {
    hide IsEos;
    var n := |rounds| - 1;
    var r := rounds[n];
    if k < r.start {
      s, d := EndsAreDrafted(g, drafting, drafts, rounds[..n], k);
    } else {
      s, d := n, k - r.start - 1;
    }
  }

  /** The length of the first text in g: up to and including its first end token. */
  ghost predicate IsTextLength(g: seq<int>, n: nat) {
    && n <= |g|
    && (forall k :: 0 <= k < n - 1 ==> !IsEos(g[k]))
    && (n == |g| || (n > 0 && IsEos(g[n - 1])))
  }

  lemma {:induction false} TextLengthExists(g: seq<int>) returns (n: nat)
    ensures IsTextLength(g, n)
  {
    if g == [] {
      n := 0;
    } else {
      var m := |g| - 1;
      n := TextLengthExists(g[..m]);
      if n == m && !(n > 0 && IsEos(g[n - 1])) {
        n := |g|;
      }
    }
  }

  /** A run goes at least as far as the plain text, and ends with it exactly when no drafted token ended the
      text before the last place. */
  lemma RunAgainstText(g: seq<int>, drafting: bool, drafts: nat -> Draft, rounds: seq<Round>, length: nat, n: nat)
    requires IsRun(g, drafting, drafts, rounds, length) && IsTextLength(g, n)
    ensures n <= length <= |g|
    ensures n == length <==> !EndDraftedEarly(g, rounds)
  {
    hide IsEos, AreRounds;
    if n < |g| && n - 1 < End(rounds) {
      var s, d := EndsAreDrafted(g, drafting, drafts, rounds, n - 1);
    }
    if EndDraftedEarly(g, rounds) {
      var k, s, d :| Drafted(rounds, k, s, d) && 0 <= k < |g| - 1 && IsEos(g[k]);
      DraftedToken(g, drafting, drafts, rounds, k, s, d);
    }
  }

  /** If the drafter never offers an end token, the output is exactly the plain one. */
  lemma NoDraftedEnd(g: seq<int>, drafting: bool, drafts: nat -> Draft, rounds: seq<Round>, length: nat, n: nat)
    requires IsRun(g, drafting, drafts, rounds, length) && IsTextLength(g, n)
    requires forall s: nat, d :: 0 <= d < |Offer(drafting, drafts(s))| ==> !IsEos(Offer(drafting, drafts(s))[d])
    ensures length == n
  {
    hide IsEos, AreRounds;
    RunAgainstText(g, drafting, drafts, rounds, length, n);
    if EndDraftedEarly(g, rounds) {
      var k, s, d :| Drafted(rounds, k, s, d) && 0 <= k < |g| - 1 && IsEos(g[k]);
      DraftedToken(g, drafting, drafts, rounds, k, s, d);
    }
  }

  /** A run that goes past the end of its text: the end token 2 is accepted from a draft. */
  lemma RunsPastEnd()
    ensures IsTextLength([5, 2, 7], 2)
    ensures IsRun([5, 2, 7], true, (s: nat) => Draft.Drafted([2]), [Round(0, 1), Round(2, 0)], 3)
  {
    var g, rounds := [5, 2, 7], [Round(0, 1), Round(2, 0)];
    assert rounds[..1] == [Round(0, 1)] && rounds[..1][..0] == [];
    assert IsRound(g, [2], rounds[0]) && IsRound(g, [2], rounds[1]);
  }

  // ---------------------------------------------------------------- the decode loop

  function Limit(maxTokens: int): nat {
    if maxTokens < 0 then 0 else maxTokens
  }

  /** The decode loop. With `drafting` off it is plain greedy decoding. The rounds say which drafted tokens
      were kept; nothing else about the drafter matters. */
  method Generate(engine: Engine, maxTokens: int, drafting: bool, drafts: nat -> Draft)
      returns (output: seq<int>, ghost rounds: seq<Round>)
    requires engine.Valid()
    modifies engine, engine.logits
    ensures engine.Valid()
    ensures output == Greedy(engine.model, engine.vocab, old(engine.history), |output|)
    ensures IsRun(Greedy(engine.model, engine.vocab, old(engine.history), Limit(maxTokens)), drafting, drafts, rounds, |output|)
    ensures forall n: nat :: IsTextLength(Greedy(engine.model, engine.vocab, old(engine.history), Limit(maxTokens)), n) ==>
              && n <= |output| <= Limit(maxTokens)
              && (n == |output| <==> !EndDraftedEarly(Greedy(engine.model, engine.vocab, old(engine.history), Limit(maxTokens)), rounds))
    ensures engine.history == old(engine.history) + output
            || (output != [] && IsEos(output[|output| - 1]) && engine.history == old(engine.history) + output[..|output| - 1])
    ensures engine.totalTokens - old(engine.totalTokens) == |engine.history| - |old(engine.history)|
  {
    hide Greedy, IsFirstMax, IsEos, AreRounds, IsRound;
    ghost var prompt, limit := engine.history, Limit(maxTokens);
    ghost var g := Greedy(engine.model, engine.vocab, prompt, limit);
    EmptyGreedy(engine.model, engine.vocab, prompt);
    NoRounds(g, drafting, drafts);
    output, rounds := [], [];
    var step: nat := 0;
    while |output| < maxTokens
      invariant InStep(engine, prompt, output)
      invariant step == |rounds| && AreRounds(g, drafting, drafts, rounds) && End(rounds) == |output| <= limit
      invariant engine.totalTokens - old(engine.totalTokens) == |engine.history| - |prompt|
      decreases maxTokens - |output|
    {
      var nextToken := BeastArgmax(engine.logits);
      NextGreedy(engine.model, engine.vocab, prompt, output, nextToken);
      GreedyPrefix(engine.model, engine.vocab, prompt, |output| + 1, limit);
      ghost var before := output;
      output := output + [nextToken];
      assert nextToken == g[|before|];
      if IsEos(nextToken) {
        assert output[..|output| - 1] == before;
        break;
      }
      engine.Forward(nextToken);
      ghost var host := output;
      var n := 0;
      if drafting && drafts(step).Drafted? && |drafts(step).tokens| > 0 {
        output, n := VerifyDrafts(engine, output, drafts(step).tokens, maxTokens, prompt);
      }
      RoundDone(engine.model, engine.vocab, prompt, limit, before, host, output, Offer(drafting, drafts(step)), n);
      RoundAppended(g, drafting, drafts, rounds, Round(|before|, n));
      rounds := rounds + [Round(|before|, n)];
      step := step + 1;
    }
    forall n: nat | IsTextLength(g, n)
      ensures n <= |output| <= limit && (n == |output| <==> !EndDraftedEarly(g, rounds))
    {
      RunAgainstText(g, drafting, drafts, rounds, |output|, n);
    }
  }

  lemma NoRounds(g: seq<int>, drafting: bool, drafts: nat -> Draft)
    ensures AreRounds(g, drafting, drafts, []) && End([]) == 0
  {
  }

  lemma RoundAppended(g: seq<int>, drafting: bool, drafts: nat -> Draft, rounds: seq<Round>, r: Round)
    requires AreRounds(g, drafting, drafts, rounds) && r.start == End(rounds) && IsRound(g, Offer(drafting, drafts(|rounds|)), r)
    ensures AreRounds(g, drafting, drafts, rounds + [r]) && End(rounds + [r]) == r.Next()
  {
    hide IsRound;
    assert (rounds + [r])[..|rounds|] == rounds;
  }

  /** What a step of the loop leaves is a round of the greedy stream. */
  lemma RoundDone(model: Model, vocab: nat, prompt: seq<int>, limit: nat, before: seq<int>, host: seq<int>, output: seq<int>,
                  offer: seq<int>, n: nat)
    requires ModelValid(model, vocab) && n <= |offer| && |output| <= limit && |host| == |before| + 1 && output == host + offer[..n]
    requires output == Greedy(model, vocab, prompt, |output|) && !IsEos(host[|before|])
    requires forall d :: 0 <= d < n - 1 ==> !IsEos(offer[d])
    requires n == |offer| || |output| == limit || (n > 0 && IsEos(offer[n - 1])) || offer[n] != ArgMax(model(prompt + output))
    ensures IsRound(Greedy(model, vocab, prompt, limit), offer, Round(|before|, n))
  {
    hide IsEos, IsFirstMax, ArgMax, IsRound, Greedy;
    var g := Greedy(model, vocab, prompt, limit);
    GreedyPrefix(model, vocab, prompt, |output|, limit);
    if |output| < limit {
      GreedyAt(model, vocab, prompt, limit, |output|);
    }
    RoundOfParts(g, offer, before, host, output, n);
  }

  lemma GreedyAt(model: Model, vocab: nat, prompt: seq<int>, limit: nat, n: nat)
    requires ModelValid(model, vocab) && n < limit
    ensures Greedy(model, vocab, prompt, limit)[n] == ArgMax(model(prompt + Greedy(model, vocab, prompt, n)))
  {
    GreedyPrefix(model, vocab, prompt, n + 1, limit);
    var longer := Greedy(model, vocab, prompt, n + 1);
    assert longer == Greedy(model, vocab, prompt, n) + [ArgMax(model(prompt + Greedy(model, vocab, prompt, n)))];
    assert Greedy(model, vocab, prompt, limit)[n] == longer[n];
  }

  lemma RoundOfParts(g: seq<int>, offer: seq<int>, before: seq<int>, host: seq<int>, output: seq<int>, n: nat)
    requires n <= |offer| && |output| <= |g| && |host| == |before| + 1 && output == host + offer[..n] && output == g[..|output|]
    requires !IsEos(host[|before|]) && forall d :: 0 <= d < n - 1 ==> !IsEos(offer[d])
    requires n == |offer| || |output| == |g| || (n > 0 && IsEos(offer[n - 1])) || offer[n] != g[|output|]
    ensures IsRound(g, offer, Round(|before|, n))
  {
    hide IsEos;
    assert g[|before| + 1..|output|] == output[|before| + 1..] == offer[..n];
    assert g[|before|] == output[|before|];
  }

  lemma EmptyGreedy(model: Model, vocab: nat, prompt: seq<int>)
    requires ModelValid(model, vocab)
    ensures Greedy(model, vocab, prompt, 0) == []
  {
  }
}
