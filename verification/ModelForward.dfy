/**
 * The dense fp32 cache as two flat buffers, and the two ways of running tokens through the model:
 * one token through all layers, and a chunk of tokens layer by layer.
 */
module ModelForward {
  import opened Arith
  import opened Transformer

  // ---- rows of a flat buffer ------------------------------------------------------------------

  /** Row `q` of a buffer of rows of `n` elements, or nothing past its end. */
  function BufferRow(s: seq<real>, q: nat, n: nat): Vec {
    if (q + 1) * n <= |s| then
      MulMonotone(q, q + 1, n);
      s[q * n..(q + 1) * n]
    else []
  }

  function RowIndex(capacity: nat, l: nat, p: nat): nat {
    l * capacity + p
  }

  /** The rows of a buffer, layer by layer and in each position by position. */
  function Rows(s: seq<real>, layers: nat, capacity: nat, stride: nat): (r: seq<seq<Vec>>)
    ensures |r| == layers
  {
    seq(layers, l requires 0 <= l < layers => LayerRows(s, l, capacity, stride))
  }

  function LayerRows(s: seq<real>, l: nat, capacity: nat, stride: nat): (r: seq<Vec>)
    ensures |r| == capacity
  {
    seq(capacity, p requires 0 <= p < capacity => BufferRow(s, RowIndex(capacity, l, p), stride))
  }

  lemma RowInBuffer(layers: nat, capacity: nat, stride: nat, l: nat, p: nat)
    requires l < layers && p < capacity
    ensures var q := RowIndex(capacity, l, p);
      l * (capacity * stride) + p * stride == q * stride <= (q + 1) * stride == q * stride + stride <= layers * (capacity * stride)
  {
    NextProduct(RowIndex(capacity, l, p), stride);
    MulMonotone(l + 1, layers, capacity);
    NextProduct(l, capacity);
    MulMonotone(l * capacity + p + 1, layers * capacity, stride);
    Regroup(l, capacity, stride, p);
    Regroup(layers, capacity, stride, 0);
  }

  lemma Regroup(l: nat, capacity: nat, stride: nat, p: nat)
    ensures l * (capacity * stride) + p * stride == (l * capacity + p) * stride
  {
    assert l * (capacity * stride) == (l * capacity) * stride;
  }

  /** A head of a row is a stretch of the buffer. */
  lemma HeadInRow(s: seq<real>, q: nat, n: nat, headDim: nat, h: nat, start: nat, at: nat)
    requires start == q * n && (q + 1) * n == start + n && at == h * headDim && (h + 1) * headDim == at + headDim
    requires at + headDim <= n && start + n <= |s|
    ensures BufferRow(s, q, n) == s[start..start + n]
    ensures HeadSlice(s[start..start + n], h, headDim) == s[start + at..start + at + headDim]
  {
    SliceOfSlice(s, start, n, at, headDim);
  }

  lemma SliceOfSlice<T>(s: seq<T>, start: nat, n: nat, o: nat, d: nat)
    requires o + d <= n && start + n <= |s|
    ensures s[start..start + n][o..o + d] == s[start + o..start + o + d]
  {
    var row := s[start..start + n];
    var a, b := row[o..o + d], s[start + o..start + o + d];
    forall i | 0 <= i < d ensures a[i] == b[i] {
      assert a[i] == row[o + i] && b[i] == s[start + o + i];
    }
  }

  /** Overwriting one row leaves every other row as it was. */
  lemma OverwriteRow(s: seq<real>, q: nat, row: Vec, n: nat, q': nat)
    requires |row| == n && q * n <= (q + 1) * n <= |s|
    ensures BufferRow(s[..q * n] + row + s[(q + 1) * n..], q', n) == if q' == q then row else BufferRow(s, q', n)
  {
    NextProduct(q, n);
    NextProduct(q', n);
    MulMonotone(q + 1, q', n);
    MulMonotone(q' + 1, q, n);
  }

  lemma RowIndexUnique(capacity: nat, l: nat, p: nat, l': nat, p': nat)
    requires p < capacity && p' < capacity && RowIndex(capacity, l, p) == RowIndex(capacity, l', p')
    ensures l == l' && p == p'
  {
    MulMonotone(l + 1, l', capacity);
    MulMonotone(l' + 1, l, capacity);
    NextProduct(l, capacity);
    NextProduct(l', capacity);
  }

  /** Overwriting a row of the buffer overwrites one entry of its layer and nothing else. */
  lemma OverwriteRows(s: seq<real>, layers: nat, capacity: nat, stride: nat, l: nat, p: nat, row: Vec)
    requires l < layers && p < capacity && |row| == stride
    requires var q := RowIndex(capacity, l, p); q * stride <= (q + 1) * stride <= |s|
    ensures var q := RowIndex(capacity, l, p);
      Rows(s[..q * stride] + row + s[(q + 1) * stride..], layers, capacity, stride)
      == Rows(s, layers, capacity, stride)[l := LayerRows(s, l, capacity, stride)[p := row]]
  {
    hide BufferRow;
    hide RowIndex;
    var q := RowIndex(capacity, l, p);
    var s' := s[..q * stride] + row + s[(q + 1) * stride..];
    forall l', p' | 0 <= l' < layers && 0 <= p' < capacity
      ensures BufferRow(s', RowIndex(capacity, l', p'), stride)
           == if l' == l && p' == p then row else BufferRow(s, RowIndex(capacity, l', p'), stride)
    {
      OverwriteRow(s, q, row, stride, RowIndex(capacity, l', p'));
      if RowIndex(capacity, l', p') == q {
        RowIndexUnique(capacity, l, p, l', p');
      }
    }
    assert LayerRows(s', l, capacity, stride) == LayerRows(s, l, capacity, stride)[p := row];
    forall l' | 0 <= l' < layers && l' != l ensures LayerRows(s', l', capacity, stride) == LayerRows(s, l', capacity, stride) {
    }
  }

  /** The cache with the row at position `p` of layer `l` replaced. */
  function WithRow(c: Cache, l: nat, p: nat, k: Vec, v: Vec): Cache
    requires l < |c.k| && l < |c.v| && p < |c.k[l]| && p < |c.v[l]|
  {
    Cache(c.k[l := c.k[l][p := k]], c.v[l := c.v[l][p := v]])
  }

  // ---- the cache --------------------------------------------------------------------------------

  class KVCache {
    const nLayers: nat
    const capacity: nat
    const nKvHeads: nat
    const headDim: nat
    const k: array<real>
    const v: array<real>
    var nSeen: nat

    function Stride(): nat {
      nKvHeads * headDim
    }

    ghost predicate Valid() {
      k != v && k.Length == v.Length == nLayers * (capacity * Stride())
    }

    ghost function Contents(): Cache
      reads k, v
    {
      Cache(Rows(k[..], nLayers, capacity, Stride()), Rows(v[..], nLayers, capacity, Stride()))
    }

    constructor (nLayers: nat, capacity: nat, nKvHeads: nat, headDim: nat)
      ensures Valid() && fresh(k) && fresh(v) && nSeen == 0
      ensures this.nLayers == nLayers && this.capacity == capacity && this.nKvHeads == nKvHeads && this.headDim == headDim
    {
      this.nLayers, this.capacity, this.nKvHeads, this.headDim := nLayers, capacity, nKvHeads, headDim;
      var size := nLayers * (capacity * (nKvHeads * headDim));
      k := new real[size](_ => 0.0);
      v := new real[size](_ => 0.0);
      nSeen := 0;
    }

    /** Copies a key and a value row to the same place of both buffers. */
    method CopyRows(base: nat, kr: Vec, vr: Vec)
      requires k != v && k.Length == v.Length && |kr| == |vr| && base + |kr| <= k.Length
      modifies k, v
      ensures k[..] == old(k[..base]) + kr + old(k[base + |kr|..])
      ensures v[..] == old(v[..base]) + vr + old(v[base + |vr|..])
    {
      ghost var ks, vs := k[..], v[..];
      for i := 0 to |kr|
        invariant forall j :: 0 <= j < k.Length ==> k[j] == if base <= j < base + i then kr[j - base] else ks[j]
        invariant forall j :: 0 <= j < v.Length ==> v[j] == if base <= j < base + i then vr[j - base] else vs[j]
      {
        k[base + i] := kr[i];
        v[base + i] := vr[i];
      }
    }

    /** Writes the key and value row of one position of one layer. */
    method Append(layer: nat, pos: nat, kr: Vec, vr: Vec)
      requires Valid() && layer < nLayers && pos < capacity && |kr| == |vr| == Stride()
      modifies k, v, `nSeen
      ensures Contents() == WithRow(old(Contents()), layer, pos, kr, vr)
      ensures nSeen == pos + 1
    {
      ghost var ks, vs := k[..], v[..];
      RowInBuffer(nLayers, capacity, Stride(), layer, pos);
      OverwriteRows(ks, nLayers, capacity, Stride(), layer, pos, kr);
      OverwriteRows(vs, nLayers, capacity, Stride(), layer, pos, vr);
      hide Rows;
      hide RowIndex;
      CopyRows(layer * (capacity * Stride()) + pos * Stride(), kr, vr);
      nSeen := pos + 1;
    }

    /** The slice of one key head at one position, straight from the buffer. */
    method HeadAt(a: array<real>, layer: nat, slot: nat, kvHead: nat) returns (r: Vec)
      requires Valid() && (a == k || a == v) && layer < nLayers && slot < capacity && kvHead < nKvHeads
      ensures var row := (if a == k then Contents().k else Contents().v)[layer][slot];
        (kvHead + 1) * headDim <= |row| && r == HeadSlice(row, kvHead, headDim)
    {
      hide BufferRow;
      var at := layer * (capacity * Stride()) + slot * Stride() + kvHead * headDim;
      RowInBuffer(nLayers, capacity, Stride(), layer, slot);
      ghost var q, stride := RowIndex(capacity, layer, slot), Stride();
      hide RowIndex;
      MulMonotone(kvHead + 1, nKvHeads, headDim);
      NextProduct(kvHead, headDim);
      ProductNotNegative(q, stride);
      ProductNotNegative(kvHead, headDim);
      HeadInRow(a[..], q, stride, headDim, kvHead, q * stride, kvHead * headDim);
      r := a[at..at + headDim];
    }
  }

  // ---- the model --------------------------------------------------------------------------------

  class Model {
    const net: Net
    const kv: KVCache

    ghost predicate Valid() {
      && net.Valid() && kv.Valid()
      && kv.nLayers == net.nLayers && kv.capacity == net.context && kv.nKvHeads == net.nKvHeads && kv.headDim == net.headDim
    }

    /** The rows the cache holds. */
    ghost function Held(): (c: Cache)
      requires Valid()
      reads kv.k, kv.v
      ensures Fits(net, c)
    {
      kv.Contents()
    }

    constructor (net: Net)
      requires net.Valid()
      ensures Valid() && this.net == net && fresh(kv) && fresh(kv.k) && fresh(kv.v)
    {
      this.net := net;
      kv := new KVCache(net.nLayers, net.context, net.nKvHeads, net.headDim);
    }

    method ResetKv()
      modifies kv`nSeen
      ensures kv.nSeen == 0
    {
      kv.nSeen := 0;
    }

    /** One key head's slices of the first `n` positions of a layer. */
    method GatherHead(a: array<real>, layer: nat, n: nat, kvHead: nat) returns (rows: seq<Vec>)
      requires Valid() && (a == kv.k || a == kv.v) && layer < net.nLayers && n <= net.context && kvHead < net.nKvHeads
      ensures rows == HeadSlices((if a == kv.k then Held().k else Held().v)[layer][..n], kvHead, net.headDim)
    {
      hide Rows;
      rows := [];
      for pp := 0 to n
        invariant rows == HeadSlices((if a == kv.k then Held().k else Held().v)[layer][..pp], kvHead, net.headDim)
      {
        var r := kv.HeadAt(a, layer, pp, kvHead);
        rows := rows + [r];
      }
    }

    /** The heads of one query attend over positions 0 to `last` of layer `layer`. */
    method AttendDense(layer: nat, last: nat, q: Vec) returns (attn: Vec)
      requires Valid() && layer < net.nLayers && last < net.context && |q| == net.nHeads * net.headDim
      ensures attn == Heads(net, q, Held().k[layer][..last + 1], Held().v[layer][..last + 1], net.nHeads)
      ensures (forall x: Vec, ks: seq<Vec>, vs: seq<Vec> :: |net.attendHead(x, ks, vs)| == net.headDim) ==>
        |attn| == net.nHeads * net.headDim && forall h: nat :: h < net.nHeads ==>
          Part(attn, h * net.headDim, net.headDim)
          == net.attendHead(Part(q, h * net.headDim, net.headDim),
                            Parts(Held().k[layer][..last + 1], h / net.gqa * net.headDim, net.headDim),
                            Parts(Held().v[layer][..last + 1], h / net.gqa * net.headDim, net.headDim))
    {
      hide Rows;
      hide HeadSlice;
      hide HeadSlices;
      hide Part;
      hide Parts;
      attn := [];
      for h := 0 to net.nHeads
        invariant attn == Heads(net, q, Held().k[layer][..last + 1], Held().v[layer][..last + 1], h)
      {
        KeyHeadOf(h, net.gqa, net.nKvHeads);
        MulMonotone(h + 1, net.nHeads, net.headDim);
        var keys := GatherHead(kv.k, layer, last + 1, h / net.gqa);
        var vals := GatherHead(kv.v, layer, last + 1, h / net.gqa);
        attn := attn + net.attendHead(HeadSlice(q, h, net.headDim), keys, vals);
      }
      if HeadsFit(net) {
        HeadsLength(net, q, Held().k[layer][..last + 1], Held().v[layer][..last + 1], net.nHeads);
        forall h: nat | h < net.nHeads
          ensures Part(attn, h * net.headDim, net.headDim)
            == net.attendHead(Part(q, h * net.headDim, net.headDim),
                              Parts(Held().k[layer][..last + 1], h / net.gqa * net.headDim, net.headDim),
                              Parts(Held().v[layer][..last + 1], h / net.gqa * net.headDim, net.headDim))
        {
          HeadsAre(net, q, Held().k[layer][..last + 1], Held().v[layer][..last + 1], net.nHeads, h);
        }
      }
    }

    /** The row of a position is a stretch of the buffers. */
    lemma HeldInBuffers(l: nat, p: nat)
      requires Valid() && l < net.nLayers && p < net.context
      ensures |Held().k[l][p]| == |Held().v[l][p]| == net.nKvHeads * net.headDim
      ensures Held().k[l][p] == Part(kv.k[..], (l * net.context + p) * (net.nKvHeads * net.headDim), net.nKvHeads * net.headDim)
      ensures Held().v[l][p] == Part(kv.v[..], (l * net.context + p) * (net.nKvHeads * net.headDim), net.nKvHeads * net.headDim)
    {
      RowInBuffer(net.nLayers, net.context, kv.Stride(), l, p);
      ProductNotNegative(RowIndex(net.context, l, p), kv.Stride());
    }

    lemma KeyHeadOf(h: nat, gqa: nat, kvHeads: nat)
      requires gqa > 0 && h < gqa * kvHeads
      ensures h / gqa < kvHeads
    {
      if h / gqa >= kvHeads {
        MulMonotone(kvHeads, h / gqa, gqa);
      }
    }

    /** One layer on one row: append the row's key and value, then attend. */
    method DecodeLayer(layer: nat, x: Vec, pos: nat) returns (y: Vec)
      requires Valid() && layer < net.nLayers && pos < net.context
      modifies kv.k, kv.v, kv`nSeen
      ensures Held() == WithRow(old(Held()), layer, pos, Key(net, layer, x, pos), Value(net, layer, x))
      ensures Held().k[layer][pos] == net.rope(net.projectK(layer, net.attnNorm(layer, x)), pos)
      ensures Held().v[layer][pos] == net.projectV(layer, net.attnNorm(layer, x))
      ensures y == LayerOut(net, layer, x, pos, Held().k[layer][..pos + 1], Held().v[layer][..pos + 1])
    {
      var normed := net.attnNorm(layer, x);
      var q, k, v := net.projectQ(layer, normed), net.projectK(layer, normed), net.projectV(layer, normed);
      q := net.rope(q, pos);
      k := net.rope(k, pos);
      kv.Append(layer, pos, k, v);
      var attn := AttendDense(layer, pos, q);
      y := net.add(x, net.attnOutput(layer, attn));
      y := net.add(y, net.feedForward(layer, y));
    }

    /** Runs one token through every layer. */
    method Forward(token: int, pos: nat) returns (logits: Vec)
      requires Valid() && pos < net.context
      modifies kv.k, kv.v, kv`nSeen
      ensures Held() == CacheAfter(net, old(Held()), [token], pos)
      ensures logits == LogitsRow(net, old(Held()), [token], pos, 0)
    {
      hide LayerOut;
      hide Rows;
      hide Through;
      hide RowIn;
      hide CacheAfter;
      hide Key;
      hide Value;
      hide LayerKeys;
      hide LayerValues;
      ghost var c := Held();
      var x := net.embed(token);
      RowInFirst(net, c, [token], pos, 0);
      NoLayers(net, c, [token], pos);
      for l := 0 to net.nLayers
        invariant x == RowIn(net, c, [token], pos, l, 0)
        invariant Held() == Through(net, c, [token], pos, l)
      {
        ghost var before := Held();
        var y := DecodeLayer(l, x, pos);
        LayerPassed(net, c, [token], pos, l, before, Held());
        RowInStep(net, c, [token], pos, l + 1, 0);
        x := y;
      }
      AllLayers(net, c, [token], pos);
      var normed := net.outputNorm(x);
      logits := net.lmHead(normed);
    }

    /** Appends the keys and values of all rows and returns their queries. */
    method AppendRows(layer: nat, xs: seq<Vec>, pos0: nat) returns (qs: seq<Vec>)
      requires Valid() && layer < net.nLayers && pos0 + |xs| <= net.context
      modifies kv.k, kv.v, kv`nSeen
      ensures Held() == WithRows(net, old(Held()), layer, xs, pos0, |xs|)
      ensures |qs| == |xs| && forall c :: 0 <= c < |xs| ==> qs[c] == Query(net, layer, xs[c], pos0 + c)
    {
      hide Rows;
      hide WithRow;
      hide WithRows;
      WithNoRows(net, Held(), layer, xs, pos0);
      qs := [];
      for c := 0 to |xs|
        invariant |qs| == c && forall j :: 0 <= j < c ==> qs[j] == Query(net, layer, xs[j], pos0 + j)
        invariant Held() == WithRows(net, old(Held()), layer, xs, pos0, c)
      {
        var normed := net.attnNorm(layer, xs[c]);
        var q, k, v := net.projectQ(layer, normed), net.projectK(layer, normed), net.projectV(layer, normed);
        var p := pos0 + c;
        q := net.rope(q, p);
        k := net.rope(k, p);
        WithRowsStep(net, old(Held()), layer, xs, pos0, c);
        kv.Append(layer, p, k, v);
        qs := qs + [q];
      }
    }

    /** Every row attends over the positions up to its own. */
    method AttendRows(layer: nat, pos0: nat, qs: seq<Vec>) returns (attns: seq<Vec>)
      requires Valid() && layer < net.nLayers && pos0 + |qs| <= net.context
      requires forall c :: 0 <= c < |qs| ==> |qs[c]| == net.nHeads * net.headDim
      ensures |attns| == |qs|
      ensures forall c :: 0 <= c < |qs| ==>
        attns[c] == Heads(net, qs[c], Held().k[layer][..pos0 + c + 1], Held().v[layer][..pos0 + c + 1], net.nHeads)
    {
      hide Rows;
      hide Heads;
      attns := [];
      for c := 0 to |qs|
        invariant |attns| == c
        invariant forall j :: 0 <= j < c ==>
          attns[j] == Heads(net, qs[j], Held().k[layer][..pos0 + j + 1], Held().v[layer][..pos0 + j + 1], net.nHeads)
      {
        var attn := AttendDense(layer, pos0 + c, qs[c]);
        attns := attns + [attn];
      }
    }

    /** One layer on the rows of a chunk: every key and value is appended before any query attends. */
    method DecodeLayerChunk(layer: nat, xs: seq<Vec>, pos0: nat) returns (ys: seq<Vec>)
      requires Valid() && layer < net.nLayers && pos0 + |xs| <= net.context
      modifies kv.k, kv.v, kv`nSeen
      ensures Held() == WithRows(net, old(Held()), layer, xs, pos0, |xs|)
      ensures |ys| == |xs|
      ensures forall c :: 0 <= c < |xs| ==>
        ys[c] == LayerOut(net, layer, xs[c], pos0 + c, Held().k[layer][..pos0 + c + 1], Held().v[layer][..pos0 + c + 1])
    {
      hide Rows;
      hide WithRows;
      hide Heads;
      var qs := AppendRows(layer, xs, pos0);
      var attns := AttendRows(layer, pos0, qs);
      ys := seq(|xs|, c requires 0 <= c < |xs| && c < |attns| =>
        var y := net.add(xs[c], net.attnOutput(layer, attns[c]));
        net.add(y, net.feedForward(layer, y)));
    }

    /** Runs a chunk through the layers together. */
    method ForwardChunk(tokens: seq<int>, pos0: nat) returns (rows: seq<Vec>)
      requires Valid() && pos0 + |tokens| <= net.context
      modifies kv.k, kv.v, kv`nSeen
      ensures Held() == CacheAfter(net, old(Held()), tokens, pos0)
      ensures rows == LogitsRows(net, old(Held()), tokens, pos0)
    {
      hide LayerOut;
      hide Rows;
      hide Through;
      hide CacheAfter;
      hide WithRows;
      hide LayerKeys;
      hide LayerValues;
      ghost var c := Held();
      var xs: seq<Vec> := [];
      for i := 0 to |tokens|
        invariant |xs| == i && forall j :: 0 <= j < i ==> xs[j] == net.embed(tokens[j])
      {
        xs := xs + [net.embed(tokens[i])];
      }
      NoLayers(net, c, tokens, pos0);
      for l := 0 to net.nLayers
        invariant |xs| == |tokens| && forall j :: 0 <= j < |tokens| ==> xs[j] == RowIn(net, c, tokens, pos0, l, j)
        invariant Held() == Through(net, c, tokens, pos0, l)
      {
        ghost var before := Held();
        var ys := DecodeLayerChunk(l, xs, pos0);
        ChunkPassed(net, c, tokens, pos0, l, before, Held(), xs);
        forall j | 0 <= j < |tokens| ensures ys[j] == RowIn(net, c, tokens, pos0, l + 1, j) {
          RowInStep(net, c, tokens, pos0, l + 1, j);
        }
        xs := ys;
      }
      AllLayers(net, c, tokens, pos0);
      rows := [];
      for i := 0 to |tokens|
        invariant rows == LogitsRows(net, c, tokens, pos0)[..i]
      {
        rows := rows + [net.lmHead(net.outputNorm(xs[i]))];
      }
    }
  }

  /** The cache with rows `pos0` to `pos0 + n - 1` of a layer replaced by those of `xs`. */
  ghost function WithRows(net: Net, c: Cache, l: nat, xs: seq<Vec>, pos0: nat, n: nat): (r: Cache)
    requires Fits(net, c) && l < net.nLayers && n <= |xs| && pos0 + |xs| <= net.context
    ensures Fits(net, r)
  {
    if n == 0 then c
    else WithRow(WithRows(net, c, l, xs, pos0, n - 1), l, pos0 + n - 1, Key(net, l, xs[n - 1], pos0 + n - 1), Value(net, l, xs[n - 1]))
  }

  lemma WithNoRows(net: Net, c: Cache, l: nat, xs: seq<Vec>, pos0: nat)
    requires Fits(net, c) && l < net.nLayers && pos0 + |xs| <= net.context
    ensures WithRows(net, c, l, xs, pos0, 0) == c
  {
  }

  lemma WithRowsStep(net: Net, c: Cache, l: nat, xs: seq<Vec>, pos0: nat, n: nat)
    requires Fits(net, c) && l < net.nLayers && n < |xs| && pos0 + |xs| <= net.context
    ensures WithRows(net, c, l, xs, pos0, n + 1)
         == WithRow(WithRows(net, c, l, xs, pos0, n), l, pos0 + n, Key(net, l, xs[n], pos0 + n), Value(net, l, xs[n]))
  {
  }

  /** The cache when the chunk has passed the first `m` layers. */
  ghost function Through(net: Net, c: Cache, toks: seq<int>, pos0: nat, m: nat): (r: Cache)
    requires InContext(net, c, toks, pos0) && m <= net.nLayers
    ensures Fits(net, r)
  {
    var after := CacheAfter(net, c, toks, pos0);
    Cache(after.k[..m] + c.k[m..], after.v[..m] + c.v[m..])
  }

  lemma NoLayers(net: Net, c: Cache, toks: seq<int>, pos0: nat)
    requires InContext(net, c, toks, pos0)
    ensures Through(net, c, toks, pos0, 0) == c
  {
  }

  lemma AllLayers(net: Net, c: Cache, toks: seq<int>, pos0: nat)
    requires InContext(net, c, toks, pos0)
    ensures Through(net, c, toks, pos0, net.nLayers) == CacheAfter(net, c, toks, pos0)
  {
  }

  lemma WithRowAt(net: Net, c: Cache, l: nat, q: nat, key: Vec, value: Vec)
    requires Fits(net, c) && l < net.nLayers && q < net.context
    requires Fits(net, WithRow(c, l, q, key, value))
    ensures var r := WithRow(c, l, q, key, value);
      && (forall m :: 0 <= m < net.nLayers && m != l ==> r.k[m] == c.k[m] && r.v[m] == c.v[m])
      && (forall p :: 0 <= p < net.context ==> r.k[l][p] == if p == q then key else c.k[l][p])
      && (forall p :: 0 <= p < net.context ==> r.v[l][p] == if p == q then value else c.v[l][p])
  {
  }

  lemma {:induction false} WithRowsAt(net: Net, c: Cache, l: nat, xs: seq<Vec>, pos0: nat, n: nat)
    requires Fits(net, c) && l < net.nLayers && n <= |xs| && pos0 + |xs| <= net.context
    ensures var r := WithRows(net, c, l, xs, pos0, n);
      && (forall m :: 0 <= m < net.nLayers && m != l ==> r.k[m] == c.k[m] && r.v[m] == c.v[m])
      && (forall p :: 0 <= p < net.context ==>
            r.k[l][p] == if pos0 <= p < pos0 + n then Key(net, l, xs[p - pos0], p) else c.k[l][p])
      && (forall p :: 0 <= p < net.context ==>
            r.v[l][p] == if pos0 <= p < pos0 + n then Value(net, l, xs[p - pos0]) else c.v[l][p])
  {
    hide Key;
    hide Value;
    if n > 0 {
      var t, q := WithRows(net, c, l, xs, pos0, n - 1), pos0 + n - 1;
      WithRowsAt(net, c, l, xs, pos0, n - 1);
      WithRowAt(net, t, l, q, Key(net, l, xs[n - 1], q), Value(net, l, xs[n - 1]));
      var r := WithRows(net, c, l, xs, pos0, n);
      forall p | 0 <= p < net.context
        ensures r.k[l][p] == if pos0 <= p < pos0 + n then Key(net, l, xs[p - pos0], p) else c.k[l][p]
        ensures r.v[l][p] == if pos0 <= p < pos0 + n then Value(net, l, xs[p - pos0]) else c.v[l][p]
      {
        assert p == q ==> p - pos0 == n - 1;
      }
    }
  }

  /** What a layer leaves in the cache is what the chunk's rows entering it give. */
  lemma ChunkPassed(net: Net, c: Cache, toks: seq<int>, pos0: nat, l: nat, before: Cache, after: Cache, xs: seq<Vec>)
    requires InContext(net, c, toks, pos0) && l < net.nLayers && |xs| == |toks|
    requires before == Through(net, c, toks, pos0, l)
    requires forall j :: 0 <= j < |toks| ==> xs[j] == RowIn(net, c, toks, pos0, l, j)
    requires after == WithRows(net, before, l, xs, pos0, |xs|)
    ensures after == Through(net, c, toks, pos0, l + 1)
    ensures forall n :: 0 <= n <= net.context ==>
      after.k[l][..n] == LayerKeys(net, c, toks, pos0, l, n) && after.v[l][..n] == LayerValues(net, c, toks, pos0, l, n)
  {
    hide RowIn;
    hide Key;
    hide Value;
    WithRowsAt(net, before, l, xs, pos0, |xs|);
    assert before.k[l] == c.k[l] && before.v[l] == c.v[l];
    forall p | 0 <= p < net.context
      ensures after.k[l][p] == KeyAt(net, c, toks, pos0, l, p) && after.v[l][p] == ValueAt(net, c, toks, pos0, l, p)
    {
    }
    assert after.k[l] == LayerKeys(net, c, toks, pos0, l, net.context);
    assert after.v[l] == LayerValues(net, c, toks, pos0, l, net.context);
    var t := Through(net, c, toks, pos0, l + 1);
    forall m | 0 <= m < net.nLayers ensures after.k[m] == t.k[m] && after.v[m] == t.v[m] {
    }
    assert after.k == t.k && after.v == t.v;
  }

  lemma LayerPassed(net: Net, c: Cache, toks: seq<int>, pos: nat, l: nat, before: Cache, after: Cache)
    requires InContext(net, c, toks, pos) && l < net.nLayers && |toks| == 1
    requires before == Through(net, c, toks, pos, l)
    requires var x := RowIn(net, c, toks, pos, l, 0);
      after == WithRow(before, l, pos, Key(net, l, x, pos), Value(net, l, x))
    ensures after == Through(net, c, toks, pos, l + 1)
    ensures forall n :: 0 <= n <= net.context ==>
      after.k[l][..n] == LayerKeys(net, c, toks, pos, l, n) && after.v[l][..n] == LayerValues(net, c, toks, pos, l, n)
  {
    var xs := [RowIn(net, c, toks, pos, l, 0)];
    WithNoRows(net, before, l, xs, pos);
    WithRowsStep(net, before, l, xs, pos, 0);
    ChunkPassed(net, c, toks, pos, l, before, after, xs);
  }
}
