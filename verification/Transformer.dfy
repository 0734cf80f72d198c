/**
 * What a transformer computes over a key/value cache, token by token. The numeric kernels are
 * arbitrary functions of their arguments; only which values reach them matters here.
 */
module Transformer {
  import opened Arith

  type Vec = seq<real>

  /** The kernels of a model, all on one row, and its sizes. Head `h` attends with key head `h / gqa`. */
  datatype Net = Net(
    nLayers: nat, context: nat, vocab: nat, nHeads: nat, nKvHeads: nat, headDim: nat, gqa: nat,
    embed: int -> Vec,
    attnNorm: (nat, Vec) -> Vec,
    projectQ: (nat, Vec) -> Vec,
    projectK: (nat, Vec) -> Vec,
    projectV: (nat, Vec) -> Vec,
    rope: (Vec, nat) -> Vec,
    attendHead: (Vec, seq<Vec>, seq<Vec>) -> Vec,
    attnOutput: (nat, Vec) -> Vec,
    add: (Vec, Vec) -> Vec,
    feedForward: (nat, Vec) -> Vec,
    outputNorm: Vec -> Vec,
    lmHead: Vec -> Vec,
    greater: (real, real) -> bool)
  {
    function Stride(): nat {
      nKvHeads * headDim
    }

    /** Each query head has a key head, and the kernels give rows of the right size. */
    ghost predicate Valid() {
      && nHeads == gqa * nKvHeads && gqa > 0
      && (forall l: nat, x: Vec :: |projectQ(l, x)| == nHeads * headDim)
      && (forall l: nat, x: Vec :: |projectK(l, x)| == Stride())
      && (forall l: nat, x: Vec :: |projectV(l, x)| == Stride())
      && (forall x: Vec, p: nat :: |rope(x, p)| == |x|)
      && vocab > 0 && (forall x: Vec :: |lmHead(x)| == vocab)
    }
  }

  /** The rows of a cache, by layer and position. */
  datatype Cache = Cache(k: seq<seq<Vec>>, v: seq<seq<Vec>>)

  ghost predicate Fits(net: Net, c: Cache) {
    && |c.k| == |c.v| == net.nLayers
    && (forall l :: 0 <= l < net.nLayers ==> |c.k[l]| == |c.v[l]| == net.context)
  }

  // ---- one layer on one row -----------------------------------------------------------------

  function HeadSlice(row: Vec, h: nat, headDim: nat): Vec
    requires (h + 1) * headDim <= |row|
  {
    assert h * headDim <= (h + 1) * headDim;
    row[h * headDim..(h + 1) * headDim]
  }

  /** The slices of one key head, or nothing of rows too short to have one. */
  function HeadSlices(rows: seq<Vec>, h: nat, headDim: nat): (r: seq<Vec>)
    ensures |r| == |rows|
  {
    seq(|rows|, p requires 0 <= p < |rows| => if (h + 1) * headDim <= |rows[p]| then HeadSlice(rows[p], h, headDim) else [])
  }

  /** The outputs of the first `n` query heads, one after the other. */
  function Heads(net: Net, q: Vec, keys: seq<Vec>, vals: seq<Vec>, n: nat): Vec
    requires net.gqa > 0
  {
    if n == 0 then []
    else
      Heads(net, q, keys, vals, n - 1)
      + net.attendHead(if n * net.headDim <= |q| then HeadSlice(q, n - 1, net.headDim) else [],
                       HeadSlices(keys, (n - 1) / net.gqa, net.headDim),
                       HeadSlices(vals, (n - 1) / net.gqa, net.headDim))
  }

  function Query(net: Net, l: nat, x: Vec, pos: nat): Vec {
    net.rope(net.projectQ(l, net.attnNorm(l, x)), pos)
  }

  function Key(net: Net, l: nat, x: Vec, pos: nat): Vec {
    net.rope(net.projectK(l, net.attnNorm(l, x)), pos)
  }

  function Value(net: Net, l: nat, x: Vec): Vec {
    net.projectV(l, net.attnNorm(l, x))
  }

  /** The row that leaves layer `l`, given the keys and values of all positions up to its own. */
  function LayerOut(net: Net, l: nat, x: Vec, pos: nat, keys: seq<Vec>, vals: seq<Vec>): Vec
    requires net.gqa > 0
  {
    var y := net.add(x, net.attnOutput(l, Heads(net, Query(net, l, x, pos), keys, vals, net.nHeads)));
    net.add(y, net.feedForward(l, y))
  }

  function Logits(net: Net, x: Vec): Vec {
    net.lmHead(net.outputNorm(x))
  }

  // ---- a chunk of tokens over any cache -------------------------------------------------------

  ghost predicate InContext(net: Net, c: Cache, toks: seq<int>, pos0: nat) {
    net.Valid() && Fits(net, c) && pos0 + |toks| <= net.context
  }

  /** Row `i` of the chunk as it enters layer `l`. Positions before the chunk are read from the cache. */
  ghost function RowIn(net: Net, c: Cache, toks: seq<int>, pos0: nat, l: nat, i: nat): Vec
    requires InContext(net, c, toks, pos0) && l <= net.nLayers && i < |toks|
    decreases l, 0
  {
    if l == 0 then net.embed(toks[i])
    else
      LayerOut(net, l - 1, RowIn(net, c, toks, pos0, l - 1, i), pos0 + i,
               seq(pos0 + i + 1, p requires 0 <= p <= pos0 + i => KeyAt(net, c, toks, pos0, l - 1, p)),
               seq(pos0 + i + 1, p requires 0 <= p <= pos0 + i => ValueAt(net, c, toks, pos0, l - 1, p)))
  }

  /** The key at position `p` of layer `l` once the chunk has passed the layer. */
  ghost function KeyAt(net: Net, c: Cache, toks: seq<int>, pos0: nat, l: nat, p: nat): Vec
    requires InContext(net, c, toks, pos0) && l < net.nLayers && p < net.context
    decreases l, 1
  {
    if pos0 <= p < pos0 + |toks| then Key(net, l, RowIn(net, c, toks, pos0, l, p - pos0), p) else c.k[l][p]
  }

  ghost function ValueAt(net: Net, c: Cache, toks: seq<int>, pos0: nat, l: nat, p: nat): Vec
    requires InContext(net, c, toks, pos0) && l < net.nLayers && p < net.context
    decreases l, 1
  {
    if pos0 <= p < pos0 + |toks| then Value(net, l, RowIn(net, c, toks, pos0, l, p - pos0)) else c.v[l][p]
  }

  /** The first `n` keys of layer `l`. */
  ghost function LayerKeys(net: Net, c: Cache, toks: seq<int>, pos0: nat, l: nat, n: nat): (r: seq<Vec>)
    requires InContext(net, c, toks, pos0) && l < net.nLayers && n <= net.context
    ensures |r| == n
  {
    seq(n, p requires 0 <= p < n => KeyAt(net, c, toks, pos0, l, p))
  }

  ghost function LayerValues(net: Net, c: Cache, toks: seq<int>, pos0: nat, l: nat, n: nat): (r: seq<Vec>)
    requires InContext(net, c, toks, pos0) && l < net.nLayers && n <= net.context
    ensures |r| == n
  {
    seq(n, p requires 0 <= p < n => ValueAt(net, c, toks, pos0, l, p))
  }

  /** The cache after the chunk. */
  ghost function CacheAfter(net: Net, c: Cache, toks: seq<int>, pos0: nat): (r: Cache)
    requires InContext(net, c, toks, pos0)
    ensures Fits(net, r)
  {
    Cache(seq(net.nLayers, l requires 0 <= l < net.nLayers => LayerKeys(net, c, toks, pos0, l, net.context)),
          seq(net.nLayers, l requires 0 <= l < net.nLayers => LayerValues(net, c, toks, pos0, l, net.context)))
  }

  /** The logits of row `i`. */
  ghost function LogitsRow(net: Net, c: Cache, toks: seq<int>, pos0: nat, i: nat): Vec
    requires InContext(net, c, toks, pos0) && i < |toks|
  {
    Logits(net, RowIn(net, c, toks, pos0, net.nLayers, i))
  }

  ghost function LogitsRows(net: Net, c: Cache, toks: seq<int>, pos0: nat): (r: seq<Vec>)
    requires InContext(net, c, toks, pos0)
    ensures |r| == |toks|
  {
    seq(|toks|, i requires 0 <= i < |toks| => LogitsRow(net, c, toks, pos0, i))
  }

  // ---- cutting a chunk --------------------------------------------------------------------------

  /** A layer's output depends on the keys and values only up to its own position. */
  lemma RowInStep(net: Net, c: Cache, toks: seq<int>, pos0: nat, l: nat, i: nat)
    requires InContext(net, c, toks, pos0) && 0 < l <= net.nLayers && i < |toks|
    ensures RowIn(net, c, toks, pos0, l, i) ==
      LayerOut(net, l - 1, RowIn(net, c, toks, pos0, l - 1, i), pos0 + i,
               LayerKeys(net, c, toks, pos0, l - 1, pos0 + i + 1), LayerValues(net, c, toks, pos0, l - 1, pos0 + i + 1))
  {
    hide LayerOut;
    hide KeyAt;
    hide ValueAt;
    var n := pos0 + i + 1;
    assert LayerKeys(net, c, toks, pos0, l - 1, n)
        == seq(n, p requires 0 <= p <= pos0 + i => KeyAt(net, c, toks, pos0, l - 1, p));
    assert LayerValues(net, c, toks, pos0, l - 1, n)
        == seq(n, p requires 0 <= p <= pos0 + i => ValueAt(net, c, toks, pos0, l - 1, p));
  }

  lemma RowInFirst(net: Net, c: Cache, toks: seq<int>, pos0: nat, i: nat)
    requires InContext(net, c, toks, pos0) && i < |toks|
    ensures RowIn(net, c, toks, pos0, 0, i) == net.embed(toks[i])
  {
  }

  /** Row `i` depends on the tokens up to `i` only. */
  lemma {:induction false} RowsAreCausal(net: Net, c: Cache, a: seq<int>, b: seq<int>, pos0: nat, l: nat, i: nat)
    requires InContext(net, c, a + b, pos0) && l <= net.nLayers && i < |a|
    ensures RowIn(net, c, a + b, pos0, l, i) == RowIn(net, c, a, pos0, l, i)
    decreases l, 0
  {
    hide RowIn;
    hide LayerOut;
    hide LayerKeys;
    hide LayerValues;
    if l == 0 {
      RowInFirst(net, c, a + b, pos0, i);
      RowInFirst(net, c, a, pos0, i);
    } else {
      LayersAreCausal(net, c, a, b, pos0, l - 1, pos0 + i + 1);
      RowInStep(net, c, a + b, pos0, l, i);
      RowInStep(net, c, a, pos0, l, i);
      RowsAreCausal(net, c, a, b, pos0, l - 1, i);
    }
  }

  lemma {:induction false} LayersAreCausal(net: Net, c: Cache, a: seq<int>, b: seq<int>, pos0: nat, l: nat, n: nat)
    requires InContext(net, c, a + b, pos0) && l < net.nLayers && n <= pos0 + |a|
    ensures LayerKeys(net, c, a + b, pos0, l, n) == LayerKeys(net, c, a, pos0, l, n)
    ensures LayerValues(net, c, a + b, pos0, l, n) == LayerValues(net, c, a, pos0, l, n)
    decreases l, 2
  {
    hide KeyAt;
    hide ValueAt;
    forall p | 0 <= p < n
      ensures KeyAt(net, c, a + b, pos0, l, p) == KeyAt(net, c, a, pos0, l, p)
      ensures ValueAt(net, c, a + b, pos0, l, p) == ValueAt(net, c, a, pos0, l, p)
    {
      KeysAreCausal(net, c, a, b, pos0, l, p);
    }
  }

  lemma {:induction false} KeysAreCausal(net: Net, c: Cache, a: seq<int>, b: seq<int>, pos0: nat, l: nat, p: nat)
    requires InContext(net, c, a + b, pos0) && l < net.nLayers && p < pos0 + |a|
    ensures KeyAt(net, c, a + b, pos0, l, p) == KeyAt(net, c, a, pos0, l, p)
    ensures ValueAt(net, c, a + b, pos0, l, p) == ValueAt(net, c, a, pos0, l, p)
    decreases l, 1
  {
    hide RowIn;
    hide Key;
    hide Value;
    if pos0 <= p {
      RowsAreCausal(net, c, a, b, pos0, l, p - pos0);
    }
  }

  /** The rows behind the cut are those of the second part over the cache the first part leaves. */
  lemma {:induction false} RowsContinue(net: Net, c: Cache, a: seq<int>, b: seq<int>, pos0: nat, l: nat, i: nat)
    requires InContext(net, c, a + b, pos0) && l <= net.nLayers && i < |b|
    ensures RowIn(net, c, a + b, pos0, l, |a| + i) == RowIn(net, CacheAfter(net, c, a, pos0), b, pos0 + |a|, l, i)
    decreases l, 0
  {
    hide CacheAfter;
    hide RowIn;
    hide LayerOut;
    hide LayerKeys;
    hide LayerValues;
    var c', cut := CacheAfter(net, c, a, pos0), pos0 + |a|;
    if l == 0 {
      RowInFirst(net, c, a + b, pos0, |a| + i);
      RowInFirst(net, c', b, cut, i);
    } else {
      LayersContinue(net, c, a, b, pos0, l - 1, cut + i + 1);
      RowInStep(net, c, a + b, pos0, l, |a| + i);
      RowInStep(net, c', b, cut, l, i);
      RowsContinue(net, c, a, b, pos0, l - 1, i);
      assert pos0 + (|a| + i) == cut + i;
    }
  }

  lemma {:induction false} LayersContinue(net: Net, c: Cache, a: seq<int>, b: seq<int>, pos0: nat, l: nat, n: nat)
    requires InContext(net, c, a + b, pos0) && l < net.nLayers && n <= net.context
    ensures var c', cut := CacheAfter(net, c, a, pos0), pos0 + |a|;
      && LayerKeys(net, c, a + b, pos0, l, n) == LayerKeys(net, c', b, cut, l, n)
      && LayerValues(net, c, a + b, pos0, l, n) == LayerValues(net, c', b, cut, l, n)
    decreases l, 2
  {
    hide CacheAfter;
    hide KeyAt;
    hide ValueAt;
    var c', cut := CacheAfter(net, c, a, pos0), pos0 + |a|;
    forall p | 0 <= p < n
      ensures KeyAt(net, c, a + b, pos0, l, p) == KeyAt(net, c', b, cut, l, p)
      ensures ValueAt(net, c, a + b, pos0, l, p) == ValueAt(net, c', b, cut, l, p)
    {
      KeysContinue(net, c, a, b, pos0, l, p);
    }
  }

  lemma {:induction false} KeysContinue(net: Net, c: Cache, a: seq<int>, b: seq<int>, pos0: nat, l: nat, p: nat)
    requires InContext(net, c, a + b, pos0) && l < net.nLayers && p < net.context
    ensures var c', cut := CacheAfter(net, c, a, pos0), pos0 + |a|;
      && KeyAt(net, c, a + b, pos0, l, p) == KeyAt(net, c', b, cut, l, p)
      && ValueAt(net, c, a + b, pos0, l, p) == ValueAt(net, c', b, cut, l, p)
    decreases l, 1
  {
    hide RowIn;
    hide Key;
    hide Value;
    hide CacheAfter;
    var c', cut := CacheAfter(net, c, a, pos0), pos0 + |a|;
    if cut <= p < cut + |b| {
      RowsContinue(net, c, a, b, pos0, l, p - cut);
      assert |a| + (p - cut) == p - pos0;
    } else {
      CacheAfterAt(net, c, a, pos0, l, p);
      if pos0 <= p < cut {
        RowsAreCausal(net, c, a, b, pos0, l, p - pos0);
      }
    }
  }

  lemma CacheAfterAt(net: Net, c: Cache, toks: seq<int>, pos0: nat, l: nat, p: nat)
    requires InContext(net, c, toks, pos0) && l < net.nLayers && p < net.context
    ensures var c' := CacheAfter(net, c, toks, pos0);
      c'.k[l][p] == KeyAt(net, c, toks, pos0, l, p) && c'.v[l][p] == ValueAt(net, c, toks, pos0, l, p)
  {
  }

  /**
   * Running a chunk is running its two parts one after the other, for every cache content, every
   * cut and every position: the same logits come out and the same cache is left.
   */
  lemma ChunkSplits(net: Net, c: Cache, a: seq<int>, b: seq<int>, pos0: nat)
    requires InContext(net, c, a + b, pos0)
    ensures var c', cut := CacheAfter(net, c, a, pos0), pos0 + |a|;
      && CacheAfter(net, c, a + b, pos0) == CacheAfter(net, c', b, cut)
      && LogitsRows(net, c, a + b, pos0) == LogitsRows(net, c, a, pos0) + LogitsRows(net, c', b, cut)
  {
    var c', cut := CacheAfter(net, c, a, pos0), pos0 + |a|;
    LogitsContinue(net, c, a, b, pos0);
    hide KeyAt;
    hide ValueAt;
    hide LogitsRows;
    hide LayerKeys;
    hide LayerValues;
    forall l | 0 <= l < net.nLayers
      ensures LayerKeys(net, c, a + b, pos0, l, net.context) == LayerKeys(net, c', b, cut, l, net.context)
      ensures LayerValues(net, c, a + b, pos0, l, net.context) == LayerValues(net, c', b, cut, l, net.context)
    {
      LayersContinue(net, c, a, b, pos0, l, net.context);
    }
  }

  lemma LogitsContinue(net: Net, c: Cache, a: seq<int>, b: seq<int>, pos0: nat)
    requires InContext(net, c, a + b, pos0)
    ensures LogitsRows(net, c, a + b, pos0)
         == LogitsRows(net, c, a, pos0) + LogitsRows(net, CacheAfter(net, c, a, pos0), b, pos0 + |a|)
  {
    hide RowIn;
    hide CacheAfter;
    var parts := LogitsRows(net, c, a, pos0) + LogitsRows(net, CacheAfter(net, c, a, pos0), b, pos0 + |a|);
    var whole := LogitsRows(net, c, a + b, pos0);
    forall i | 0 <= i < |a + b| ensures whole[i] == parts[i] {
      if i < |a| {
        RowsAreCausal(net, c, a, b, pos0, net.nLayers, i);
      } else {
        RowsContinue(net, c, a, b, pos0, net.nLayers, i - |a|);
        assert |a| + (i - |a|) == i;
      }
    }
  }

  /** The cache and the logits rows of `toks` run one token at a time. */
  ghost function OneByOne(net: Net, c: Cache, toks: seq<int>, pos0: nat): (r: (Cache, seq<Vec>))
    requires InContext(net, c, toks, pos0)
    ensures Fits(net, r.0)
  {
    if toks == [] then (c, [])
    else
      var n := |toks| - 1;
      var (c1, rows) := OneByOne(net, c, toks[..n], pos0);
      (CacheAfter(net, c1, [toks[n]], pos0 + n), rows + LogitsRows(net, c1, [toks[n]], pos0 + n))
  }

  lemma NoTokens(net: Net, c: Cache, pos0: nat)
    requires InContext(net, c, [], pos0)
    ensures CacheAfter(net, c, [], pos0) == c
  {
    var r := CacheAfter(net, c, [], pos0);
    forall l | 0 <= l < net.nLayers ensures r.k[l] == c.k[l] && r.v[l] == c.v[l] {
    }
  }

  /** All layers per token or all tokens per layer: a chunk equals its tokens one by one. */
  lemma {:induction false} ChunkIsOneByOne(net: Net, c: Cache, toks: seq<int>, pos0: nat)
    requires InContext(net, c, toks, pos0)
    ensures OneByOne(net, c, toks, pos0) == (CacheAfter(net, c, toks, pos0), LogitsRows(net, c, toks, pos0))
    decreases |toks|
  {
    if toks == [] {
      NoTokens(net, c, pos0);
    } else {
      hide CacheAfter;
      hide LogitsRows;
      var n := |toks| - 1;
      ChunkIsOneByOne(net, c, toks[..n], pos0);
      ChunkSplits(net, c, toks[..n], [toks[n]], pos0);
      assert toks[..n] + [toks[n]] == toks;
    }
  }

  // ---- the computation, entry by entry ------------------------------------------------------------

  /** A stretch of a row, or nothing past its end. */
  function Part(row: Vec, from: int, len: nat): Vec {
    if 0 <= from <= |row| - len then row[from..from + len] else []
  }

  function Parts(rows: seq<Vec>, from: int, len: nat): seq<Vec> {
    seq(|rows|, p requires 0 <= p < |rows| => Part(rows[p], from, len))
  }

  /** The entries of a stretch. */
  lemma PartsAre(rows: seq<Vec>, from: nat, len: nat, p: nat, j: nat)
    requires p < |rows| && from + len <= |rows[p]| && j < len
    ensures |Parts(rows, from, len)| == |rows| && |Parts(rows, from, len)[p]| == len
    ensures Part(rows[p], from, len)[j] == Parts(rows, from, len)[p][j] == rows[p][from + j]
  {
  }

  /** Every head has an output of the size of a head. */
  ghost predicate HeadsFit(net: Net) {
    forall q: Vec, ks: seq<Vec>, vs: seq<Vec> :: |net.attendHead(q, ks, vs)| == net.headDim
  }

  lemma HeadSlicesAre(rows: seq<Vec>, h: nat, headDim: nat)
    ensures HeadSlices(rows, h, headDim) == Parts(rows, h * headDim, headDim)
  {
    NextProduct(h, headDim);
    ProductNotNegative(h, headDim);
  }

  /**
   * Head by head: the entries of head `h` are what the kernel gives for the entries of head `h` of the query and, at
   * every position, the entries of key head `h / gqa` of the key and of the value.
   */
  lemma {:induction false} HeadsAre(net: Net, q: Vec, keys: seq<Vec>, vals: seq<Vec>, n: nat, h: nat)
    requires net.gqa > 0 && HeadsFit(net) && h < n && n * net.headDim <= |q|
    ensures |Heads(net, q, keys, vals, n)| == n * net.headDim
    ensures Part(Heads(net, q, keys, vals, n), h * net.headDim, net.headDim)
      == net.attendHead(Part(q, h * net.headDim, net.headDim),
                        Parts(keys, h / net.gqa * net.headDim, net.headDim), Parts(vals, h / net.gqa * net.headDim, net.headDim))
    decreases n
  {
    hide Heads;
    hide Parts;
    hide Part;
    var d := net.headDim;
    NextProduct(n - 1, d);
    ProductNotNegative(n - 1, d);
    HeadsLength(net, q, keys, vals, n - 1);
    var before := Heads(net, q, keys, vals, n - 1);
    var last := LastHead(net, q, keys, vals, n);
    if h < n - 1 {
      HeadsAre(net, q, keys, vals, n - 1, h);
      NextProduct(h, d);
      MulMonotone(h + 1, n - 1, d);
      ProductNotNegative(h, d);
      PartOfFirst(before, last, h * d, d);
    } else {
      PartOfLast(before, last, (n - 1) * d, d);
    }
  }

  lemma LastHead(net: Net, q: Vec, keys: seq<Vec>, vals: seq<Vec>, n: nat) returns (last: Vec)
    requires net.gqa > 0 && HeadsFit(net) && 0 < n && n * net.headDim <= |q|
    ensures Heads(net, q, keys, vals, n) == Heads(net, q, keys, vals, n - 1) + last && |last| == net.headDim
    ensures last == net.attendHead(Part(q, (n - 1) * net.headDim, net.headDim),
      Parts(keys, (n - 1) / net.gqa * net.headDim, net.headDim), Parts(vals, (n - 1) / net.gqa * net.headDim, net.headDim))
  {
    hide HeadSlices;
    hide Parts;
    var d, kh := net.headDim, (n - 1) / net.gqa;
    NextProduct(n - 1, d);
    ProductNotNegative(n - 1, d);
    HeadSlicesAre(keys, kh, d);
    HeadSlicesAre(vals, kh, d);
    last := net.attendHead(HeadSlice(q, n - 1, d), HeadSlices(keys, kh, d), HeadSlices(vals, kh, d));
  }

  lemma PartOfLast(a: Vec, b: Vec, from: nat, len: nat)
    requires from == |a| && len == |b|
    ensures Part(a + b, from, len) == b
  {
  }

  lemma {:induction false} HeadsLength(net: Net, q: Vec, keys: seq<Vec>, vals: seq<Vec>, n: nat)
    requires net.gqa > 0 && HeadsFit(net)
    ensures |Heads(net, q, keys, vals, n)| == n * net.headDim
  {
    if n > 0 {
      NextProduct(n - 1, net.headDim);
      HeadsLength(net, q, keys, vals, n - 1);
    }
  }

  lemma PartOfFirst(a: Vec, b: Vec, from: nat, len: nat)
    requires from + len <= |a|
    ensures Part(a + b, from, len) == Part(a, from, len)
  {
  }

  /** Every value row within reach matters: replacing one in a channel of the first head changes the output of some kernel. */
  lemma ValuesMatter(net: Net, q: Vec, keys: seq<Vec>, vals: seq<Vec>, n: nat, p: nat, row: Vec)
    requires net.gqa > 0 && 0 < n && 0 < net.headDim && n * net.headDim <= |q| && p < |vals|
    requires Part(vals[p], 0, net.headDim) != Part(row, 0, net.headDim)
    ensures exists f :: Heads(net.(attendHead := f), q, keys, vals, n) != Heads(net.(attendHead := f), q, keys, vals[p := row], n)
  {
    hide Heads;
    hide Part;
    var d, seen := net.headDim, Parts(vals, 0, net.headDim);
    var f := (x: Vec, ks: seq<Vec>, vs: seq<Vec>) => if vs == seen then seq(d, _ => 1.0) else seq(d, _ => 0.0);
    var other := net.(attendHead := f);
    assert Parts(vals[p := row], 0, d)[p] != seen[p];
    HeadsAre(other, q, keys, vals, n, 0);
    HeadsAre(other, q, keys, vals[p := row], n, 0);
    assert seq(d, _ => 1.0)[0] != seq(d, _ => 0.0)[0];
  }

  /** One layer on one row, written out. */
  lemma LayerOutIs(net: Net, l: nat, x: Vec, pos: nat, keys: seq<Vec>, vals: seq<Vec>) returns (attn: Vec)
    requires net.gqa > 0 && HeadsFit(net) && |net.rope(net.projectQ(l, net.attnNorm(l, x)), pos)| == net.nHeads * net.headDim
    ensures |attn| == net.nHeads * net.headDim
    ensures forall h: nat :: h < net.nHeads ==>
      Part(attn, h * net.headDim, net.headDim)
      == net.attendHead(Part(net.rope(net.projectQ(l, net.attnNorm(l, x)), pos), h * net.headDim, net.headDim),
                        Parts(keys, h / net.gqa * net.headDim, net.headDim), Parts(vals, h / net.gqa * net.headDim, net.headDim))
    ensures var y := net.add(x, net.attnOutput(l, attn));
      LayerOut(net, l, x, pos, keys, vals) == net.add(y, net.feedForward(l, y))
  {
    hide Heads;
    hide Part;
    hide Parts;
    hide HeadsFit;
    var q := net.rope(net.projectQ(l, net.attnNorm(l, x)), pos);
    HeadsLength(net, q, keys, vals, net.nHeads);
    attn := Heads(net, q, keys, vals, net.nHeads);
    forall h: nat | h < net.nHeads
      ensures Part(attn, h * net.headDim, net.headDim)
        == net.attendHead(Part(q, h * net.headDim, net.headDim),
                          Parts(keys, h / net.gqa * net.headDim, net.headDim), Parts(vals, h / net.gqa * net.headDim, net.headDim))
    {
      HeadsAre(net, q, keys, vals, net.nHeads, h);
    }
  }

  /**
   * One row from layer to layer, written out. The row attends with its rotated query over the keys and values of the
   * positions up to its own, those before the chunk from the cache and the others from the rows of the chunk; two sums
   * follow, the first with the projected attention and the second with the feed-forward block.
   */
  lemma RowEquation(net: Net, c: Cache, toks: seq<int>, pos0: nat, l: nat, i: nat, keys: seq<Vec>, vals: seq<Vec>) returns (attn: Vec)
    requires InContext(net, c, toks, pos0) && HeadsFit(net) && l < net.nLayers && i < |toks|
    requires |keys| == |vals| == pos0 + i + 1
    requires forall p :: 0 <= p < pos0 ==> keys[p] == c.k[l][p] && vals[p] == c.v[l][p]
    requires forall p :: pos0 <= p <= pos0 + i ==>
      && keys[p] == net.rope(net.projectK(l, net.attnNorm(l, RowIn(net, c, toks, pos0, l, p - pos0))), p)
      && vals[p] == net.projectV(l, net.attnNorm(l, RowIn(net, c, toks, pos0, l, p - pos0)))
    ensures |attn| == net.nHeads * net.headDim
    ensures var q := net.rope(net.projectQ(l, net.attnNorm(l, RowIn(net, c, toks, pos0, l, i))), pos0 + i);
      forall h: nat :: h < net.nHeads ==>
        Part(attn, h * net.headDim, net.headDim)
        == net.attendHead(Part(q, h * net.headDim, net.headDim),
                          Parts(keys, h / net.gqa * net.headDim, net.headDim), Parts(vals, h / net.gqa * net.headDim, net.headDim))
    ensures var x := RowIn(net, c, toks, pos0, l, i);
      var y := net.add(x, net.attnOutput(l, attn));
      RowIn(net, c, toks, pos0, l + 1, i) == net.add(y, net.feedForward(l, y))
  {
    hide RowIn;
    hide HeadsFit;
    hide LayerOut;
    hide Part;
    hide Parts;
    var n := pos0 + i + 1;
    RowInStep(net, c, toks, pos0, l + 1, i);
    assert keys == LayerKeys(net, c, toks, pos0, l, n) && vals == LayerValues(net, c, toks, pos0, l, n);
    attn := LayerOutIs(net, l, RowIn(net, c, toks, pos0, l, i), pos0 + i, keys, vals);
  }

  /** Where the rows begin and end, and what a chunk leaves in the cache, written out. */
  lemma ChunkEquations(net: Net, c: Cache, toks: seq<int>, pos0: nat)
    requires InContext(net, c, toks, pos0)
    ensures forall i :: 0 <= i < |toks| ==> RowIn(net, c, toks, pos0, 0, i) == net.embed(toks[i])
    ensures forall i :: 0 <= i < |toks| ==>
      LogitsRows(net, c, toks, pos0)[i] == net.lmHead(net.outputNorm(RowIn(net, c, toks, pos0, net.nLayers, i)))
    ensures forall l, p :: 0 <= l < net.nLayers && 0 <= p < net.context ==>
      CacheAfter(net, c, toks, pos0).k[l][p]
      == if p < pos0 || p >= pos0 + |toks| then c.k[l][p]
         else net.rope(net.projectK(l, net.attnNorm(l, RowIn(net, c, toks, pos0, l, p - pos0))), p)
    ensures forall l, p :: 0 <= l < net.nLayers && 0 <= p < net.context ==>
      CacheAfter(net, c, toks, pos0).v[l][p]
      == if p < pos0 || p >= pos0 + |toks| then c.v[l][p]
         else net.projectV(l, net.attnNorm(l, RowIn(net, c, toks, pos0, l, p - pos0)))
  {
    forall l, p | 0 <= l < net.nLayers && 0 <= p < net.context
      ensures CacheAfter(net, c, toks, pos0).k[l][p] == KeyAt(net, c, toks, pos0, l, p)
      ensures CacheAfter(net, c, toks, pos0).v[l][p] == ValueAt(net, c, toks, pos0, l, p)
    {
      CacheAfterAt(net, c, toks, pos0, l, p);
    }
  }
}
