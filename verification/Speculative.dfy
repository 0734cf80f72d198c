/**
 * Speculative decoding. A draft model proposes tokens, the target model checks them in one chunk,
 * and the result is the target's own greedy stream although rejected proposals stay in the caches.
 */
module Speculative {
  import opened Arith
  import opened Transformer
  import opened ModelForward

  // ---- greedy decoding --------------------------------------------------------------------------

  /** The first index whose logit no other exceeds, as far as `greater` tells. */
  function ArgMaxOf(greater: (real, real) -> bool, row: Vec, n: nat): (best: nat)
    requires 0 < n <= |row|
    ensures best < n
  {
    if n == 1 then 0
    else
      var b := ArgMaxOf(greater, row, n - 1);
      if greater(row[n - 1], row[b]) then n - 1 else b
  }

  method ArgMax(greater: (real, real) -> bool, row: Vec) returns (best: nat)
    requires row != []
    ensures best == ArgMaxOf(greater, row, |row|)
  {
    best := 0;
    var bestv := row[0];
    for i := 1 to |row|
      invariant best == ArgMaxOf(greater, row, i) && bestv == row[best]
    {
      if greater(row[i], bestv) {
        bestv, best := row[i], i;
      }
    }
  }

  /** With the order of the reals the index is that of the first maximum. */
  lemma {:induction false} ArgMaxIsFirstMaximum(row: Vec, n: nat)
    requires 0 < n <= |row|
    ensures var best := ArgMaxOf((x, y) => x > y, row, n);
      && (forall i :: 0 <= i < n ==> row[i] <= row[best])
      && (forall i :: 0 <= i < best ==> row[i] < row[best])
  {
    if n > 1 {
      ArgMaxIsFirstMaximum(row, n - 1);
    }
  }

  /** A cache that holds nothing. */
  function Blank(net: Net): (c: Cache)
    ensures Fits(net, c)
  {
    Cache(seq(net.nLayers, _ => seq(net.context, _ => [])), seq(net.nLayers, _ => seq(net.context, _ => [])))
  }

  /** The token the model prefers after the tokens `h`, which it has run from the start. */
  ghost function GreedyNext(net: Net, h: seq<int>): int
    requires net.Valid() && 0 < |h| <= net.context
  {
    ArgMaxOf(net.greater, LogitsRow(net, Blank(net), h, 0, |h| - 1), net.vocab)
  }

  /** The model's own next `m` tokens after `h`. */
  ghost function Greedy(net: Net, h: seq<int>, m: nat): (r: seq<int>)
    requires net.Valid() && 0 < |h| && |h| + m <= net.context + 1
    ensures |r| == m
  {
    if m == 0 then []
    else
      var r := Greedy(net, h, m - 1);
      r + [GreedyNext(net, h + r)]
  }

  lemma {:induction false} GreedyPrefix(net: Net, h: seq<int>, m: nat, n: nat)
    requires net.Valid() && 0 < |h| && m <= n && |h| + n <= net.context + 1
    ensures Greedy(net, h, n)[..m] == Greedy(net, h, m)
    decreases n
  {
    hide GreedyNext;
    if m < n {
      GreedyPrefix(net, h, m, n - 1);
      assert Greedy(net, h, n)[..m] == Greedy(net, h, n - 1)[..m];
    }
  }

  lemma {:induction false} GreedyConcat(net: Net, h: seq<int>, m: nat, n: nat)
    requires net.Valid() && 0 < |h| && |h| + m + n <= net.context + 1
    ensures Greedy(net, h, m + n) == Greedy(net, h, m) + Greedy(net, h + Greedy(net, h, m), n)
  {
    hide GreedyNext;
    var r := Greedy(net, h, m);
    if n > 0 {
      GreedyConcat(net, h, m, n - 1);
      var t := Greedy(net, h + r, n - 1);
      assert h + (r + t) == (h + r) + t;
    }
  }

  // ---- coherent caches --------------------------------------------------------------------------

  /** The cache holds the keys and values of the tokens `h` in its first slots. What the other slots
      hold does not matter. */
  ghost predicate Coherent(net: Net, c: Cache, h: seq<int>) {
    && net.Valid() && Fits(net, c) && |h| <= net.context
    && forall l, p :: 0 <= l < net.nLayers && 0 <= p < |h| ==> SlotHolds(net, c, h, l, p)
  }

  ghost predicate SlotHolds(net: Net, c: Cache, h: seq<int>, l: nat, p: nat)
    requires net.Valid() && Fits(net, c) && |h| <= net.context && l < net.nLayers && p < |h|
  {
    c.k[l][p] == KeyAt(net, Blank(net), h, 0, l, p) && c.v[l][p] == ValueAt(net, Blank(net), h, 0, l, p)
  }

  ghost predicate AgreeBelow(net: Net, c: Cache, d: Cache, n: nat)
    requires Fits(net, c) && Fits(net, d) && n <= net.context
  {
    forall l, p :: 0 <= l < net.nLayers && 0 <= p < n ==> c.k[l][p] == d.k[l][p] && c.v[l][p] == d.v[l][p]
  }

  /** Slots at and behind the chunk's first position are never read before they are written. */
  lemma {:induction false} StaleSlotsUnread(net: Net, c: Cache, d: Cache, toks: seq<int>, pos0: nat, l: nat, i: nat)
    requires InContext(net, c, toks, pos0) && Fits(net, d) && AgreeBelow(net, c, d, pos0)
    requires l <= net.nLayers && i < |toks|
    ensures RowIn(net, c, toks, pos0, l, i) == RowIn(net, d, toks, pos0, l, i)
    decreases l, 0
  {
    hide RowIn;
    hide LayerOut;
    hide LayerKeys;
    hide LayerValues;
    if l == 0 {
      RowInFirst(net, c, toks, pos0, i);
      RowInFirst(net, d, toks, pos0, i);
    } else {
      StaleLayersUnread(net, c, d, toks, pos0, l - 1, pos0 + i + 1);
      RowInStep(net, c, toks, pos0, l, i);
      RowInStep(net, d, toks, pos0, l, i);
      StaleSlotsUnread(net, c, d, toks, pos0, l - 1, i);
    }
  }

  lemma {:induction false} StaleLayersUnread(net: Net, c: Cache, d: Cache, toks: seq<int>, pos0: nat, l: nat, n: nat)
    requires InContext(net, c, toks, pos0) && Fits(net, d) && AgreeBelow(net, c, d, pos0)
    requires l < net.nLayers && n <= pos0 + |toks|
    ensures LayerKeys(net, c, toks, pos0, l, n) == LayerKeys(net, d, toks, pos0, l, n)
    ensures LayerValues(net, c, toks, pos0, l, n) == LayerValues(net, d, toks, pos0, l, n)
    decreases l, 1
  {
    hide RowIn;
    hide Key;
    hide Value;
    forall p | 0 <= p < n
      ensures KeyAt(net, c, toks, pos0, l, p) == KeyAt(net, d, toks, pos0, l, p)
      ensures ValueAt(net, c, toks, pos0, l, p) == ValueAt(net, d, toks, pos0, l, p)
    {
      if pos0 <= p {
        StaleSlotsUnread(net, c, d, toks, pos0, l, p - pos0);
      }
    }
  }

  /** Running `toks` behind a coherent history gives the logits of the whole text, and leaves the
      cache coherent with it. */
  lemma CoherentRun(net: Net, c: Cache, h: seq<int>, toks: seq<int>)
    requires Coherent(net, c, h) && |h| + |toks| <= net.context
    ensures Coherent(net, CacheAfter(net, c, toks, |h|), h + toks)
    ensures forall i :: 0 <= i < |toks| ==>
      LogitsRow(net, c, toks, |h|, i) == LogitsRow(net, Blank(net), h + toks[..i + 1], 0, |h| + i)
  {
    hide RowIn;
    hide KeyAt;
    hide ValueAt;
    hide CacheAfter;
    hide Blank;
    var blank := Blank(net);
    var full := CacheAfter(net, blank, h, 0);
    assert AgreeBelow(net, c, full, |h|) by {
      forall l, p | 0 <= l < net.nLayers && 0 <= p < |h| ensures c.k[l][p] == full.k[l][p] && c.v[l][p] == full.v[l][p] {
        CacheAfterAt(net, blank, h, 0, l, p);
        assert SlotHolds(net, c, h, l, p);
      }
    }
    forall i | 0 <= i < |toks|
      ensures LogitsRow(net, c, toks, |h|, i) == LogitsRow(net, blank, h + toks[..i + 1], 0, |h| + i)
    {
      StaleSlotsUnread(net, c, full, toks, |h|, net.nLayers, i);
      RowsContinue(net, blank, h, toks, 0, net.nLayers, i);
      assert h + toks == (h + toks[..i + 1]) + toks[i + 1..];
      RowsAreCausal(net, blank, h + toks[..i + 1], toks[i + 1..], 0, net.nLayers, |h| + i);
    }
    RunKeepsCoherent(net, c, full, h, toks);
  }

  lemma RunKeepsCoherent(net: Net, c: Cache, full: Cache, h: seq<int>, toks: seq<int>)
    requires Coherent(net, c, h) && |h| + |toks| <= net.context
    requires full == CacheAfter(net, Blank(net), h, 0) && AgreeBelow(net, c, full, |h|)
    ensures Coherent(net, CacheAfter(net, c, toks, |h|), h + toks)
  {
    hide RowIn;
    hide Key;
    hide Value;
    hide CacheAfter;
    var after := CacheAfter(net, c, toks, |h|);
    forall l, p | 0 <= l < net.nLayers && 0 <= p < |h + toks| ensures SlotHolds(net, after, h + toks, l, p) {
      CacheAfterAt(net, c, toks, |h|, l, p);
      KeysContinue(net, Blank(net), h, toks, 0, l, p);
      if |h| <= p {
        StaleSlotsUnread(net, c, full, toks, |h|, l, p - |h|);
      }
    }
  }

  /** A coherent cache is coherent with every prefix of its history: what a rejected proposal wrote
      is simply no longer part of it. */
  lemma CoherentPrefix(net: Net, c: Cache, h: seq<int>, n: nat)
    requires Coherent(net, c, h) && n <= |h|
    ensures Coherent(net, c, h[..n])
  {
    hide KeyAt;
    hide ValueAt;
    assert h == h[..n] + h[n..];
    forall l, p | 0 <= l < net.nLayers && 0 <= p < n ensures SlotHolds(net, c, h[..n], l, p) {
      assert SlotHolds(net, c, h, l, p);
      KeysAreCausal(net, Blank(net), h[..n], h[n..], 0, l, p);
    }
  }

  /** The greedy choice behind the run tokens is the one the model makes from the start. */
  lemma RunChoosesGreedily(net: Net, c: Cache, h: seq<int>, toks: seq<int>, i: nat)
    requires Coherent(net, c, h) && |h| + |toks| <= net.context && i < |toks|
    ensures |LogitsRow(net, c, toks, |h|, i)| == net.vocab > 0
    ensures ArgMaxOf(net.greater, LogitsRow(net, c, toks, |h|, i), net.vocab) == GreedyNext(net, h + toks[..i + 1])
  {
    CoherentRun(net, c, h, toks);
  }

  // ---- one round ----------------------------------------------------------------------------------

  /** Appends the agreed proposals and one token of the target. */
  method SpeculativeMerge(draft: seq<int>, target: seq<int>) returns (out: seq<int>, j: nat)
    requires |target| == |draft| + 1
    ensures j <= |draft| && draft[..j] == target[..j] && (j < |draft| ==> draft[j] != target[j])
    ensures out == target[..j + 1]
  {
    out, j := [], 0;
    while j < |draft| && draft[j] == target[j]
      invariant j <= |draft| && draft[..j] == target[..j] && out == target[..j]
    {
      out := out + [draft[j]];
      j := j + 1;
    }
    out := out + [target[j]];
  }

  /** The first `n` tokens each are the greedy choice after the tokens before them. */
  ghost predicate Chosen(net: Net, h: seq<int>, toks: seq<int>, n: nat) {
    net.Valid() && 0 < |h| && n <= |toks| && |h| + n <= net.context + 1
    && forall i :: 0 <= i < n ==> toks[i] == GreedyNext(net, h + toks[..i])
  }

  lemma {:induction false} ChosenIsGreedy(net: Net, h: seq<int>, toks: seq<int>, n: nat)
    requires Chosen(net, h, toks, n)
    ensures toks[..n] == Greedy(net, h, n)
  {
    hide GreedyNext;
    if n > 0 {
      ChosenIsGreedy(net, h, toks, n - 1);
      assert toks[..n] == toks[..n - 1] + [toks[n - 1]];
    }
  }

  /** The target's choices are checked tokens as long as the proposals before them agree. */
  lemma CheckedAreGreedy(net: Net, h: seq<int>, proposals: seq<int>, verified: seq<int>, j: nat)
    requires net.Valid() && 0 < |h| && |h| + |proposals| <= net.context && |verified| == |proposals| + 1
    requires forall i :: 0 <= i < |verified| ==> verified[i] == GreedyNext(net, h + proposals[..i])
    requires j <= |proposals| && proposals[..j] == verified[..j]
    ensures verified[..j + 1] == Greedy(net, h, j + 1)
  {
    hide GreedyNext;
    forall i | 0 <= i < j + 1 ensures verified[i] == GreedyNext(net, h + verified[..i]) {
      assert proposals[..i] == proposals[..j][..i] == verified[..j][..i] == verified[..i];
    }
    ChosenIsGreedy(net, h, verified, j + 1);
  }

  /** Lets the draft propose `k` tokens; its cache ends one short of the last proposal. */
  method Propose(draft: Model, ghost h: seq<int>, last: int, pos: nat, k: nat) returns (proposals: seq<int>)
    requires draft.Valid() && h != [] && last == h[|h| - 1] && pos == |h| - 1 && pos + k <= draft.net.context
    requires Coherent(draft.net, draft.Held(), h[..pos])
    modifies draft.kv.k, draft.kv.v, draft.kv`nSeen
    ensures |proposals| == k && Chosen(draft.net, h, proposals, k)
    ensures Coherent(draft.net, draft.Held(), (h + proposals)[..pos + k])
  {
    hide GreedyNext;
    hide Coherent;
    hide LogitsRow;
    hide CacheAfter;
    proposals := [];
    var cur := last;
    assert (h + [])[..pos] == h[..pos] && h + [] == h;
    for i := 0 to k
      invariant |proposals| == i && cur == (h + proposals)[pos + i]
      invariant Coherent(draft.net, draft.Held(), (h + proposals)[..pos + i])
      invariant forall j :: 0 <= j < i ==> proposals[j] == GreedyNext(draft.net, h + proposals[..j])
    {
      ghost var before := (h + proposals)[..pos + i];
      assert before + [cur][..1] == h + proposals;
      CoherentRun(draft.net, draft.Held(), before, [cur]);
      RunChoosesGreedily(draft.net, draft.Held(), before, [cur], 0);
      var ld := draft.Forward(cur, pos + i);
      var next := ArgMax(draft.net.greater, ld);
      ghost var was := proposals;
      proposals := proposals + [next];
      cur := next;
      assert proposals[..i] == was;
      assert (h + proposals)[..pos + i + 1] == before + [(h + was)[pos + i]];
      forall j | 0 <= j < i + 1 ensures proposals[j] == GreedyNext(draft.net, h + proposals[..j]) {
        if j < i {
          assert proposals[..j] == was[..j];
        }
      }
    }
  }

  /** Lets the target choose after the last token and after each proposal, in one chunk. */
  method Verify(target: Model, ghost h: seq<int>, last: int, pos: nat, proposals: seq<int>) returns (verified: seq<int>)
    requires target.Valid() && h != [] && last == h[|h| - 1] && pos == |h| - 1
    requires pos + |proposals| + 1 <= target.net.context
    requires Coherent(target.net, target.Held(), h[..pos])
    modifies target.kv.k, target.kv.v, target.kv`nSeen
    ensures |verified| == |proposals| + 1
    ensures forall i :: 0 <= i < |verified| ==> verified[i] == GreedyNext(target.net, h + proposals[..i])
    ensures Coherent(target.net, target.Held(), h + proposals)
  {
    hide GreedyNext;
    hide Coherent;
    hide LogitsRow;
    hide CacheAfter;
    var inputs := [last] + proposals;
    ghost var before := h[..pos];
    ghost var c := target.Held();
    assert before + inputs == h + proposals;
    CoherentRun(target.net, c, before, inputs);
    var chunk := target.ForwardChunk(inputs, pos);
    verified := [];
    for i := 0 to |chunk|
      invariant |verified| == i && Coherent(target.net, target.Held(), h + proposals)
      invariant forall j :: 0 <= j < i ==> verified[j] == GreedyNext(target.net, h + proposals[..j])
    {
      RunChoosesGreedily(target.net, c, before, inputs, i);
      assert before + inputs[..i + 1] == h + proposals[..i];
      var t := ArgMax(target.net.greater, chunk[i]);
      verified := verified + [t];
    }
  }

  datatype SpecStats = SpecStats(proposed: nat, accepted: nat, rounds: nat)

  ghost predicate Separate(target: Model, draft: Model) {
    && target.kv != draft.kv
    && {target.kv.k, target.kv.v} !! {draft.kv.k, draft.kv.v}
  }

  /** What holds whenever a round is about to start: both caches hold the prompt and the generated
      tokens up to the last, and the generated tokens are the target's own. */
  ghost predicate RoundHead(target: Net, tc: Cache, draft: Net, dc: Cache, prompt: seq<int>, gen: seq<int>, pos: nat, last: int) {
    && target.Valid() && |prompt| > 0 && |prompt| + |gen| <= target.context + 1
    && pos == |prompt| - 1 + |gen| && last == (prompt + gen)[pos]
    && Coherent(target, tc, (prompt + gen)[..pos]) && Coherent(draft, dc, (prompt + gen)[..pos])
    && gen == Greedy(target, prompt, |gen|)
  }

  /** A round that starts after `from` generated tokens and merges up to `to`: as many proposals are accepted as the
      greedy streams of both models agree, and one token of the target follows. */
  ghost predicate RoundIs(target: Net, draft: Net, prompt: seq<int>, k: nat, from: nat, to: nat) {
    && target.Valid() && draft.Valid() && |prompt| > 0 && from < to <= from + k + 1
    && |prompt| + to <= target.context + 1 && |prompt| + from + k <= draft.context + 1
    && var h, a := prompt + Greedy(target, prompt, from), to - from - 1;
      var d, t := Greedy(draft, h, k), Greedy(target, h, a + 1);
      d[..a] == t[..a] && (a < k ==> d[a] != t[a])
  }

  lemma HeadFacts(target: Net, tc: Cache, draft: Net, dc: Cache, prompt: seq<int>, gen: seq<int>, pos: nat, last: int)
    requires RoundHead(target, tc, draft, dc, prompt, gen, pos, last)
    ensures target.Valid() && |prompt| > 0 && |prompt| + |gen| <= target.context + 1
    ensures pos == |prompt| - 1 + |gen| && last == (prompt + gen)[pos] && gen == Greedy(target, prompt, |gen|)
  {
  }

  lemma FirstHead(target: Net, tc: Cache, draft: Net, dc: Cache, prompt: seq<int>)
    requires target.Valid() && 0 < |prompt| <= target.context + 1
    requires Coherent(target, tc, prompt[..|prompt| - 1]) && Coherent(draft, dc, prompt[..|prompt| - 1])
    ensures RoundHead(target, tc, draft, dc, prompt, [], |prompt| - 1, prompt[|prompt| - 1])
  {
    hide Coherent;
    assert prompt + [] == prompt;
  }

  /** The caches and the generated tokens behind a round. */
  lemma NextHead(target: Net, tc: Cache, draft: Net, dc: Cache, prompt: seq<int>, gen: seq<int>, proposals: seq<int>,
                 held: seq<int>, merged: seq<int>, j: nat, pos: nat)
    requires target.Valid() && |prompt| > 0 && |prompt| + |gen| + j + 1 <= target.context + 1
    requires gen == Greedy(target, prompt, |gen|) && merged == Greedy(target, prompt + gen, j + 1)
    requires j <= |proposals| && proposals[..j] == merged[..j] && pos == |prompt| + |gen| + j
    requires Coherent(target, tc, prompt + gen + proposals) && Coherent(draft, dc, held)
    requires pos <= |held| <= |prompt + gen + proposals| && held == (prompt + gen + proposals)[..|held|]
    ensures RoundHead(target, tc, draft, dc, prompt, gen + merged, pos, merged[j])
  {
    hide Coherent;
    hide GreedyNext;
    GreedyConcat(target, prompt, |gen|, j + 1);
    var all := prompt + (gen + merged);
    assert all[..pos] == prompt + gen + merged[..j] == (prompt + gen + proposals)[..pos];
    assert held[..pos] == (prompt + gen + proposals)[..pos];
    CoherentPrefix(draft, dc, held, pos);
    CoherentPrefix(target, tc, prompt + gen + proposals, pos);
    assert all[pos] == merged[j];
  }

  /** One round: propose, verify, merge, and let the draft catch up when everything was accepted. */
  method Round(target: Model, draft: Model, k: nat, ghost prompt: seq<int>, ghost gen: seq<int>, last0: int, pos0: nat)
    returns (merged: seq<int>, accepted: nat, last: int, pos: nat)
    requires target.Valid() && draft.Valid() && Separate(target, draft) && k > 0
    requires RoundHead(target.net, target.Held(), draft.net, draft.Held(), prompt, gen, pos0, last0)
    requires pos0 + k + 1 <= target.net.context && pos0 + k + 1 <= draft.net.context
    modifies target.kv.k, target.kv.v, target.kv`nSeen, draft.kv.k, draft.kv.v, draft.kv`nSeen
    ensures accepted <= k && |merged| == accepted + 1
    ensures RoundHead(target.net, target.Held(), draft.net, draft.Held(), prompt, gen + merged, pos, last)
    ensures draft.net == target.net ==> accepted == k
    ensures RoundIs(target.net, draft.net, prompt, k, |gen|, |gen| + accepted + 1) && merged == Greedy(target.net, prompt + gen, accepted + 1)
  {
    hide GreedyNext;
    hide Coherent;
    hide LogitsRow;
    hide CacheAfter;
    hide Greedy;
    ghost var h := prompt + gen;
    var proposals := Propose(draft, h, last0, pos0, k);
    var verified := Verify(target, h, last0, pos0, proposals);
    merged, accepted := SpeculativeMerge(proposals, verified);
    CheckedAreGreedy(target.net, h, proposals, verified, accepted);
    ChosenIsGreedy(draft.net, h, proposals, k);
    assert proposals[..k] == proposals && proposals[..accepted] == merged[..accepted];
    ghost var held := (h + proposals)[..pos0 + k];
    if accepted == k {
      ghost var t := [proposals[k - 1]];
      assert held + t == h + proposals;
      CoherentRun(draft.net, draft.Held(), held, t);
      var _ := draft.Forward(proposals[k - 1], pos0 + k);
      held := h + proposals;
    }
    last := merged[|merged| - 1];
    pos := pos0 + accepted + 1;
    NextHead(target.net, target.Held(), draft.net, draft.Held(), prompt, gen, proposals, held, merged, accepted, pos);
    EqualModelsAgree(target.net, h, k, accepted);
  }

  /** A shorter greedy stream is the beginning of a longer one. */
  lemma EqualModelsAgree(net: Net, h: seq<int>, k: nat, j: nat)
    requires net.Valid() && 0 < |h| && |h| + k <= net.context + 1
    ensures j < k ==> Greedy(net, h, k)[j] == Greedy(net, h, j + 1)[j]
  {
    if j < k {
      GreedyPrefix(net, h, j + 1, k);
      assert Greedy(net, h, k)[..j + 1][j] == Greedy(net, h, k)[j];
    }
  }

  /** Takes over the merged tokens until `n` are generated or `eos` comes. */
  method Commit(gen0: seq<int>, merged: seq<int>, n: nat, eos: int) returns (gen: seq<int>, stop: bool)
    requires |gen0| <= n
    ensures |gen| <= n && gen0 <= gen <= gen0 + merged
    ensures eos !in gen[|gen0|..]
    ensures !stop ==> gen == gen0 + merged
    ensures stop ==> |gen| == n || (|gen| < |gen0 + merged| && (gen0 + merged)[|gen|] == eos)
  {
    gen, stop := gen0, false;
    for i := 0 to |merged|
      invariant gen == gen0 + merged[..i] && |gen| <= n && eos !in merged[..i]
    {
      var tok := merged[i];
      if |gen| >= n || tok == eos {
        stop := true;
        assert (gen0 + merged)[|gen|] == tok;
        return;
      }
      gen := gen + [tok];
    }
    assert merged[..|merged|] == merged;
  }

  /** Runs all but the last prompt token through both models. */
  method Prefill(target: Model, draft: Model, prompt: seq<int>)
    requires target.Valid() && draft.Valid() && Separate(target, draft)
    requires 0 < |prompt| <= target.net.context && |prompt| <= draft.net.context
    modifies target.kv.k, target.kv.v, target.kv`nSeen, draft.kv.k, draft.kv.v, draft.kv`nSeen
    ensures Coherent(target.net, target.Held(), prompt[..|prompt| - 1])
    ensures Coherent(draft.net, draft.Held(), prompt[..|prompt| - 1])
  {
    hide LogitsRow;
    hide CacheAfter;
    hide SlotHolds;
    for i := 0 to |prompt| - 1
      invariant Coherent(target.net, target.Held(), prompt[..i]) && Coherent(draft.net, draft.Held(), prompt[..i])
    {
      assert prompt[..i] + [prompt[i]] == prompt[..i + 1];
      CoherentRun(target.net, target.Held(), prompt[..i], [prompt[i]]);
      CoherentRun(draft.net, draft.Held(), prompt[..i], [prompt[i]]);
      var _ := target.Forward(prompt[i], i);
      var _ := draft.Forward(prompt[i], i);
    }
  }

  /** The numbers of tokens merged before each round and after the last. No round starts when enough is generated or
      behind an `eos`. */
  ghost predicate RoundsAre(target: Net, draft: Net, prompt: seq<int>, k: nat, n: nat, eos: int, cuts: seq<nat>) {
    && |cuts| > 0 && cuts[0] == 0
    && forall r :: 0 <= r < |cuts| - 1 ==>
        && cuts[r] < n && RoundIs(target, draft, prompt, k, cuts[r], cuts[r + 1])
        && eos !in Greedy(target, prompt, cuts[r])
  }

  function Proposed(k: nat, rounds: nat): nat {
    k * rounds
  }

  lemma OneRoundMore(k: nat, rounds: nat)
    ensures Proposed(k, 0) == 0 && Proposed(k, rounds + 1) == Proposed(k, rounds) + k
    ensures Proposed(k, rounds) == k * rounds
  {
  }

  lemma NothingGenerated(net: Net, prompt: seq<int>, n: nat)
    requires net.Valid() && 0 < |prompt| && |prompt| + n <= net.context + 1
    ensures Greedy(net, prompt, n)[..0] == [] == Greedy(net, prompt, 0)
  {
  }

  lemma NoRounds(target: Net, draft: Net, prompt: seq<int>, k: nat, n: nat, eos: int)
    ensures RoundsAre(target, draft, prompt, k, n, eos, [0])
  {
  }

  lemma RoundAdded(target: Net, draft: Net, prompt: seq<int>, k: nat, n: nat, eos: int, cuts: seq<nat>, to: nat)
    requires RoundsAre(target, draft, prompt, k, n, eos, cuts)
    requires cuts[|cuts| - 1] < n && RoundIs(target, draft, prompt, k, cuts[|cuts| - 1], to)
    requires eos !in Greedy(target, prompt, cuts[|cuts| - 1])
    ensures RoundsAre(target, draft, prompt, k, n, eos, cuts + [to])
  {
    hide RoundIs;
    hide Greedy;
  }

  /**
   * Speculative generation returns exactly the target's own greedy tokens, up to `n` of them and
   * before the first `eos`, whatever the draft model is. `cuts` are the numbers of tokens merged before each round and
   * after the last; they determine the statistics. A draft equal to the target has every proposal accepted.
   */
  method SpeculativeGenerate(target: Model, draft: Model, prompt: seq<int>, k: nat, n: nat, eos: int)
    returns (gen: seq<int>, stats: SpecStats, ghost cuts: seq<nat>)
    requires target.Valid() && draft.Valid() && Separate(target, draft)
    requires |prompt| + n + k - 1 <= target.net.context && |prompt| + n + k - 1 <= draft.net.context
    modifies target.kv.k, target.kv.v, target.kv`nSeen, draft.kv.k, draft.kv.v, draft.kv`nSeen
    ensures prompt == [] || k == 0 || n == 0 ==> gen == [] && stats == SpecStats(0, 0, 0)
    ensures prompt != [] && k > 0 && n > 0 ==>
      && var stream := Greedy(target.net, prompt, n);
        |gen| <= n && gen == stream[..|gen|] && eos !in gen && (|gen| < n ==> stream[|gen|] == eos)
    ensures |cuts| == stats.rounds + 1 && RoundsAre(target.net, draft.net, prompt, k, n, eos, cuts)
    ensures stats.proposed == k * stats.rounds && stats.accepted + stats.rounds == cuts[stats.rounds]
    ensures prompt != [] && k > 0 && n > 0 ==>
      && |prompt| + cuts[stats.rounds] <= target.net.context + 1
      && (cuts[stats.rounds] >= n || eos in Greedy(target.net, prompt, cuts[stats.rounds]))
    ensures draft.net == target.net ==> stats.accepted == stats.proposed
  {
    hide GreedyNext;
    hide Greedy;
    hide Coherent;
    hide RoundsAre;
    hide RoundIs;
    hide RoundHead;
    hide Separate;
    hide Proposed;
    gen, stats, cuts := [], SpecStats(0, 0, 0), [0];
    NoRounds(target.net, draft.net, prompt, k, n, eos);
    OneRoundMore(k, 0);
    if prompt == [] || k == 0 || n == 0 {
      return;
    }
    target.ResetKv();
    draft.ResetKv();
    Prefill(target, draft, prompt);
    var last: int, pos: nat := prompt[|prompt| - 1], |prompt| - 1;
    FirstHead(target.net, target.Held(), draft.net, draft.Held(), prompt);
    NothingGenerated(target.net, prompt, n);
    var stop := false;
    while !stop && |gen| < n
      invariant |gen| <= n && eos !in gen
      invariant !stop ==> RoundHead(target.net, target.Held(), draft.net, draft.Held(), prompt, gen, pos, last)
      invariant gen == Greedy(target.net, prompt, n)[..|gen|] && (stop && |gen| < n ==> Greedy(target.net, prompt, n)[|gen|] == eos)
      invariant draft.net == target.net ==> stats.accepted == stats.proposed
      invariant |cuts| == stats.rounds + 1 && RoundsAre(target.net, draft.net, prompt, k, n, eos, cuts)
      invariant stats.proposed == Proposed(k, stats.rounds) && stats.accepted + stats.rounds == cuts[stats.rounds]
      invariant |prompt| + cuts[stats.rounds] <= target.net.context + 1
      invariant !stop ==> cuts[stats.rounds] == |gen|
      invariant stop ==> cuts[stats.rounds] >= n || eos in Greedy(target.net, prompt, cuts[stats.rounds])
      decreases !stop, n - |gen|
    {
      var merged, accepted;
      ghost var before := gen;
      HeadFacts(target.net, target.Held(), draft.net, draft.Held(), prompt, gen, pos, last);
      merged, accepted, last, pos := Round(target, draft, k, prompt, gen, last, pos);
      HeadFacts(target.net, target.Held(), draft.net, draft.Held(), prompt, before + merged, pos, last);
      RoundAdded(target.net, draft.net, prompt, k, n, eos, cuts, |before| + accepted + 1);
      OneRoundMore(k, stats.rounds);
      stats := SpecStats(stats.proposed + k, stats.accepted + accepted, stats.rounds + 1);
      cuts := cuts + [|before| + accepted + 1];
      gen, stop := Commit(gen, merged, n, eos);
      assert gen == before + gen[|before|..];
      CommittedIsCut(target.net, prompt, before + merged, gen, n, eos, stop);
    }
    OneRoundMore(k, stats.rounds);
  }

  lemma CommittedIsCut(net: Net, prompt: seq<int>, all: seq<int>, gen: seq<int>, n: nat, eos: int, stop: bool)
    requires net.Valid() && 0 < |prompt| && |prompt| + n <= net.context + 1 && |prompt| + |all| <= net.context + 1
    requires all == Greedy(net, prompt, |all|) && gen <= all && |gen| <= n && eos !in gen
    requires stop ==> |gen| == n || (|gen| < |all| && all[|gen|] == eos)
    ensures gen == Greedy(net, prompt, n)[..|gen|] && (stop && |gen| < n ==> Greedy(net, prompt, n)[|gen|] == eos)
  {
    hide GreedyNext;
    var m := |gen|;
    var stream := Greedy(net, prompt, n);
    GreedyPrefix(net, prompt, m, |all|);
    GreedyPrefix(net, prompt, m, n);
    if stop && m < n {
      GreedyPrefix(net, prompt, m + 1, |all|);
      GreedyPrefix(net, prompt, m + 1, n);
      assert stream[m] == stream[..m + 1][m] == all[..m + 1][m] == eos;
    }
  }
}
