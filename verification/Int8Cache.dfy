/** The dense cache with 8-bit keys and values, over the reals: keys share a scale per channel and
    group of positions, values per head and block of channels, and the first positions stay exact. */
module Int8Cache {
  import opened Arith

  /** Positions of a key group and channels of a value block. */
  const GROUP: nat := 32
  const BLOCK: nat := 32

  type Vec = seq<real>

  function Abs(x: real): real {
    if x < 0.0 then -x else x
  }

  function MaxReal(a: real, b: real): real {
    if a < b then b else a
  }

  /** Rounds to the nearest integer, halves away from zero. */
  function Round(x: real): int {
    if x >= 0.0 then (x + 0.5).Floor else -((-x + 0.5).Floor)
  }

  function Clamp(q: int): (r: int)
    ensures -127 <= r <= 127
  {
    if q < -127 then -127 else if q > 127 then 127 else q
  }

  function Inverse(scale: real): real {
    if scale > 0.0 then 1.0 / scale else 0.0
  }

  function Quantize(x: real, scale: real): (q: int)
    ensures -127 <= q <= 127
  {
    Clamp(Round(Scaled(x, Inverse(scale))))
  }

  function Scaled(x: real, factor: real): real {
    x * factor
  }

  lemma RoundIs(y: real)
    ensures var d := y - Round(y) as real;
      -0.5 <= d <= 0.5 && (d == 0.5 ==> y < 0.0) && (d == -0.5 ==> y > 0.0)
  {
  }

  lemma HalfScale(scale: real, d: real)
    requires scale > 0.0 && -0.5 <= d <= 0.5
    ensures -scale / 2.0 <= scale * d <= scale / 2.0
    ensures scale * d == scale / 2.0 ==> d == 0.5
    ensures scale * d == -scale / 2.0 ==> d == -0.5
  {
    assert scale * (0.5 - d) >= 0.0 && scale * (0.5 + d) >= 0.0;
    assert d < 0.5 ==> scale * (0.5 - d) > 0.0;
    assert d > -0.5 ==> scale * (0.5 + d) > 0.0;
  }

  lemma SameSign(y: real, scale: real)
    requires scale > 0.0
    ensures (y < 0.0 ==> y * scale < 0.0) && (y > 0.0 ==> y * scale > 0.0)
    ensures (y * scale == 127.0 * scale ==> y == 127.0) && (y * scale == -127.0 * scale ==> y == -127.0)
  {
    assert y != 127.0 ==> (y - 127.0) * scale != 0.0;
    assert y != -127.0 ==> (y + 127.0) * scale != 0.0;
  }

  lemma Rescaled(y: real, scale: real, q: int, d: real)
    requires d == y - q as real
    ensures y * scale - scale * q as real == scale * d
  {
  }

  lemma ScaledBack(x: real, scale: real)
    requires scale > 0.0
    ensures Scaled(x, Inverse(scale)) * scale == x
  {
  }

  /**
   * What is stored for a number within 127 scales: an integer in range whose multiple of the scale is nearest, the
   * one away from zero if two are; the ends of the range for numbers at the ends.
   */
  lemma QuantizeIsNearest(x: real, scale: real)
    requires scale > 0.0 && -127.0 * scale <= x <= 127.0 * scale
    ensures var q := Quantize(x, scale);
      && -127 <= q <= 127
      && -scale / 2.0 <= x - scale * q as real <= scale / 2.0
      && (x - scale * q as real == scale / 2.0 ==> x < 0.0) && (x - scale * q as real == -scale / 2.0 ==> x > 0.0)
      && (x == 127.0 * scale ==> q == 127) && (x == -127.0 * scale ==> q == -127)
  {
    hide Round;
    var y := Scaled(x, Inverse(scale));
    ScaledBack(x, scale);
    ScaledInRange(y, scale);
    RoundIs(y);
    assert Quantize(x, scale) == Round(y);
    var d := y - Round(y) as real;
    Rescaled(y, scale, Round(y), d);
    HalfScale(scale, d);
    SameSign(y, scale);
  }

  /** Without a scale everything is zero and so is what is stored. */
  lemma QuantizeIsExactAtZero(x: real, scale: real)
    requires scale == 0.0 && -127.0 * scale <= x <= 127.0 * scale
    ensures Quantize(x, scale) == 0 && x == 0.0
  {
  }

  lemma StoredWithin(x: real, scale: real)
    requires scale >= 0.0 && -127.0 * scale <= x <= 127.0 * scale
    ensures var q := Quantize(x, scale);
      && -scale / 2.0 <= x - scale * q as real <= scale / 2.0
      && -127 <= q <= 127
      && (scale > 0.0 && x == 127.0 * scale ==> q == 127) && (scale > 0.0 && x == -127.0 * scale ==> q == -127)
  {
    hide Quantize;
    if scale > 0.0 {
      QuantizeIsNearest(x, scale);
    } else {
      QuantizeIsExactAtZero(x, scale);
    }
  }

  lemma ScaledInRange(y: real, scale: real)
    requires scale > 0.0 && Abs(y * scale) <= 127.0 * scale
    ensures -127 <= Round(y) <= 127
  {
    if y > 127.0 {
      assert (y - 127.0) * scale > 0.0;
    } else if y < -127.0 {
      assert (-127.0 - y) * scale > 0.0;
    }
  }

  // ---- maxima -----------------------------------------------------------------------------------

  /** The largest magnitude of a list; 0 for none. */
  function MaxAbs(xs: seq<real>): (m: real)
    ensures m >= 0.0
  {
    if xs == [] then 0.0 else MaxReal(MaxAbs(xs[..|xs| - 1]), Abs(xs[|xs| - 1]))
  }

  lemma {:induction false} MaxAbsBounds(xs: seq<real>)
    ensures forall i :: 0 <= i < |xs| ==> Abs(xs[i]) <= MaxAbs(xs)
    ensures xs != [] ==> exists i :: 0 <= i < |xs| && Abs(xs[i]) == MaxAbs(xs)
  {
    if xs != [] {
      var init := xs[..|xs| - 1];
      MaxAbsBounds(init);
      if init != [] {
        var i :| 0 <= i < |init| && Abs(init[i]) == MaxAbs(init);
        assert Abs(xs[i]) == MaxAbs(init);
      }
      assert forall i :: 0 <= i < |init| ==> xs[i] == init[i];
      assert Abs(xs[|xs| - 1]) <= MaxAbs(xs);
    }
  }

  lemma MaxAbsNext(xs: seq<real>, x: real)
    ensures MaxAbs(xs + [x]) == MaxReal(MaxAbs(xs), Abs(x))
  {
    assert (xs + [x])[..|xs|] == xs;
  }

  // ---- values: one scale per block of a head ----------------------------------------------------

  function BlockOf(i: nat): nat {
    i / 32
  }

  function BlockStart(b: nat): nat {
    32 * b
  }

  lemma BlockIs(i: nat, b: nat)
    ensures BlockOf(i) == b <==> BlockStart(b) <= i < BlockStart(b) + BLOCK
    ensures BlockStart(b + 1) == BlockStart(b) + BLOCK
  {
  }

  /** The scale of a block of channels. */
  function BlockScale(src: Vec, b: nat): real {
    if BlockStart(b) <= |src| then
      MaxAbs(src[BlockStart(b)..Min(BlockStart(b) + BLOCK, |src|)]) / 127.0
    else 0.0
  }

  predicate Quantized(src: Vec, dst: seq<int>, scales: seq<real>) {
    && |dst| == |src|
    && (BlockStart(|scales|) >= |src|)
    && (forall b: nat :: b < |scales| ==> BlockStart(b) < |src| && scales[b] == BlockScale(src, b))
    && (forall i: nat :: i < |src| ==> BlockOf(i) < |scales| && dst[i] == Quantize(src[i], scales[BlockOf(i)]))
  }

  /** The scale of a block, by a scan for the largest magnitude. */
  method ScaleOf(src: Vec, b: nat) returns (scale: real)
    requires BlockStart(b) < |src|
    ensures scale == BlockScale(src, b)
  {
    var start := BlockStart(b);
    var end := Min(start + BLOCK, |src|);
    hide BlockStart;
    var maxAbs := 0.0;
    for i := start to end
      invariant maxAbs == MaxAbs(src[start..i])
    {
      MaxAbsNext(src[start..i], src[i]);
      assert src[start..i + 1] == src[start..i] + [src[i]];
      maxAbs := MaxReal(maxAbs, Abs(src[i]));
    }
    scale := maxAbs / 127.0;
  }

  method QuantHead(src: Vec) returns (dst: seq<int>, scales: seq<real>)
    ensures Quantized(src, dst, scales)
  {
    hide Quantize;
    hide Scaled;
    hide BlockScale;
    hide Round;
    dst, scales := [], [];
    var b := 0;
    while BlockStart(b) < |src|
      invariant b == |scales| && |dst| == Min(BlockStart(b), |src|)
      invariant forall c: nat :: c < b ==> BlockStart(c) < |src| && scales[c] == BlockScale(src, c)
      invariant forall i: nat :: i < |dst| ==> BlockOf(i) < b && dst[i] == Quantize(src[i], scales[BlockOf(i)])
      decreases |src| - |dst|
    {
      BlockIs(0, b);
      var start := BlockStart(b);
      var end := Min(start + BLOCK, |src|);
      hide BlockOf;
      hide BlockStart;
      var scale := ScaleOf(src, b);
      scales := scales + [scale];
      var inv := Inverse(scale);
      for i := start to end
        invariant |dst| == i
        invariant forall j: nat :: j < i ==> BlockOf(j) <= b && dst[j] == Quantize(src[j], scales[BlockOf(j)])
      {
        BlockIs(i, b);
        QuantizeBy(src[i], scale);
        assert scales[BlockOf(i)] == scale;
        dst := dst + [Clamp(Round(Scaled(src[i], inv)))];
        assert dst[i] == Quantize(src[i], scale);
      }
      b := b + 1;
    }
  }

  lemma QuantizeBy(x: real, scale: real)
    ensures Quantize(x, scale) == Clamp(Round(Scaled(x, Inverse(scale))))
  {
  }

  /**
   * The scale of a value's block is a 127th of the largest magnitude in the block, and the value is off by at most
   * half of it; a value of largest magnitude is stored as 127 or -127.
   */
  lemma ValueError(src: Vec, dst: seq<int>, scales: seq<real>, i: nat)
    requires Quantized(src, dst, scales) && i < |src|
    ensures |dst| == |src| && |scales| == (|src| + 31) / 32 && i / 32 < |scales|
    ensures var s := scales[i / 32];
      && (forall j :: 0 <= j < |src| && j / 32 == i / 32 ==> -127.0 * s <= src[j] <= 127.0 * s)
      && (exists j :: 0 <= j < |src| && j / 32 == i / 32 && (src[j] == 127.0 * s || src[j] == -127.0 * s))
      && -s / 2.0 <= src[i] - s * dst[i] as real <= s / 2.0
      && -127 <= dst[i] <= 127
      && (s > 0.0 && src[i] == 127.0 * s ==> dst[i] == 127) && (s > 0.0 && src[i] == -127.0 * s ==> dst[i] == -127)
  {
    hide Quantize;
    hide BlockScale;
    var b := BlockOf(i);
    BlockCount(src, dst, scales);
    BlockIs(i, b);
    BlockMagnitude(src, b, i);
    var s := scales[b];
    assert s == BlockScale(src, b) && dst[i] == Quantize(src[i], s);
    StoredWithin(src[i], s);
  }

  /** The block of channel i: no magnitude exceeds 127 scales, and one is as large. */
  lemma BlockMagnitude(src: Vec, b: nat, i: nat)
    requires i < |src| && BlockOf(i) == b
    ensures var s := BlockScale(src, b);
      && s >= 0.0
      && (forall j :: 0 <= j < |src| && j / 32 == i / 32 ==> -127.0 * s <= src[j] <= 127.0 * s)
      && (exists j :: 0 <= j < |src| && j / 32 == i / 32 && (src[j] == 127.0 * s || src[j] == -127.0 * s))
  {
    hide MaxAbs;
    BlockIs(i, b);
    var start, end := BlockStart(b), Min(BlockStart(b) + BLOCK, |src|);
    var block := src[start..end];
    MaxAbsBounds(block);
    var s := BlockScale(src, b);
    assert 127.0 * s == MaxAbs(block);
    forall j | 0 <= j < |src| && j / 32 == i / 32 ensures -127.0 * s <= src[j] <= 127.0 * s {
      BlockIs(j, b);
      assert block[j - start] == src[j];
    }
    var k :| 0 <= k < |block| && Abs(block[k]) == MaxAbs(block);
    assert src[start + k] == block[k];
    BlockIs(start + k, b);
  }

  lemma BlockCount(src: Vec, dst: seq<int>, scales: seq<real>)
    requires Quantized(src, dst, scales)
    ensures |scales| == (|src| + 31) / 32
  {
    hide BlockScale;
    hide Quantize;
    var m := |scales|;
    if m > 0 {
      assert scales[m - 1] == BlockScale(src, m - 1);
    }
  }

  // ---- keys: one scale per channel and group ----------------------------------------------------

  function GroupOf(pos: nat): nat {
    pos / 32
  }

  function GroupStart(g: nat): nat {
    32 * g
  }

  lemma GroupIs(pos: nat, g: nat)
    ensures GroupOf(pos) == g <==> GroupStart(g) <= pos < GroupStart(g) + GROUP
    ensures GroupStart(GroupOf(pos)) + pos % GROUP == pos
  {
  }

  lemma GroupsInOrder(g: nat, h: nat)
    ensures g < h ==> GroupStart(g) + GROUP <= GroupStart(h)
    ensures GroupStart(g) == GroupStart(h) ==> g == h
  {
  }

  /** One channel of some rows. */
  function Column(rows: seq<Vec>, c: nat): (r: seq<real>)
    ensures |r| == |rows|
  {
    seq(|rows|, i requires 0 <= i < |rows| => if c < |rows[i]| then rows[i][c] else 0.0)
  }

  /** The rows between two positions, without those kept exactly. */
  function LossyRows(keys: seq<Vec>, nSink: nat, from: nat, to: nat): seq<Vec> {
    if Max(from, nSink) < to <= |keys| then keys[Max(from, nSink)..to] else []
  }

  /** The scale of a channel in group g when `keys` have been appended. */
  function KeyScale(keys: seq<Vec>, nSink: nat, g: nat, c: nat): real {
    MaxAbs(Column(LossyRows(keys, nSink, GroupStart(g), Min(GroupStart(g) + GROUP, |keys|)), c)) / 127.0
  }

  /** No row of the table changes but one. */
  twostate predicate OnlyRow<T>(a: array3<T>, layer: nat, pos: nat)
    reads a
  {
    forall l, p, c :: 0 <= l < a.Length0 && 0 <= p < a.Length1 && 0 <= c < a.Length2 && !(l == layer && p == pos)
      ==> a[l, p, c] == old(a[l, p, c])
  }

  /** No row of the table changes but those between two positions of a layer. */
  twostate predicate OnlyRows<T>(a: array3<T>, layer: nat, from: nat, to: nat)
    reads a
  {
    forall l, p, c :: 0 <= l < a.Length0 && 0 <= p < a.Length1 && 0 <= c < a.Length2 && !(l == layer && from <= p < to)
      ==> a[l, p, c] == old(a[l, p, c])
  }

  /** Stores a row exactly. */
  method KeepExact(a: array3<real>, layer: nat, pos: nat, row: Vec)
    requires layer < a.Length0 && pos < a.Length1 && |row| == a.Length2
    modifies a
    ensures OnlyRow(a, layer, pos) && forall c :: 0 <= c < |row| ==> a[layer, pos, c] == row[c]
  {
    for i := 0 to |row|
      invariant OnlyRow(a, layer, pos) && forall c :: 0 <= c < i ==> a[layer, pos, c] == row[c]
    {
      a[layer, pos, i] := row[i];
    }
  }

  /** The entries of one head of a row. */
  function HeadOf(row: Vec, h: nat, headDim: nat): Vec {
    if h * headDim <= (h + 1) * headDim <= |row| then row[h * headDim..(h + 1) * headDim] else []
  }

  class Cache {
    const nLayers: nat
    const capacity: nat
    const nGroups: nat
    const nHeads: nat
    const headDim: nat
    const stride: nat
    const nSink: nat
    const kRaw: array3<real>
    const k8: array3<int>
    const kScale: array3<real>
    const kSink: array3<real>
    const vSink: array3<real>
    const v8: array3<seq<int>>
    const vScale: array3<seq<real>>
    var nSeen: nat
    /** The rows appended to every layer. */
    ghost var keys: seq<seq<Vec>>
    ghost var vals: seq<seq<Vec>>

    ghost predicate Shape()
      reads this
    {
      && stride == nHeads * headDim && capacity <= GroupStart(nGroups)
      && kRaw.Length0 == nLayers && kRaw.Length1 == GROUP && kRaw.Length2 == stride
      && k8.Length0 == nLayers && k8.Length1 == capacity && k8.Length2 == stride
      && kScale.Length0 == nLayers && kScale.Length1 == nGroups && kScale.Length2 == stride
      && kSink.Length0 == nLayers && kSink.Length1 == nSink && kSink.Length2 == stride
      && vSink.Length0 == nLayers && vSink.Length1 == nSink && vSink.Length2 == stride
      && v8.Length0 == nLayers && v8.Length1 == capacity && v8.Length2 == nHeads
      && vScale.Length0 == nLayers && vScale.Length1 == capacity && vScale.Length2 == nHeads
      && kSink != vSink && kRaw != kScale && kRaw != kSink && kRaw != vSink && kScale != kSink && kScale != vSink
      && |keys| == nLayers && |vals| == nLayers
      && (forall l :: 0 <= l < nLayers ==> |keys[l]| == |vals[l]| <= capacity)
      && (forall l, t :: 0 <= l < nLayers && 0 <= t < |keys[l]| ==> |keys[l][t]| == stride == |vals[l][t]|)
    }

    /** Positions stay below the groups' end. */
    lemma GroupInRange(t: nat)
      requires t < capacity && capacity <= GroupStart(nGroups)
      ensures GroupOf(t) < nGroups && t % GROUP < GROUP
    {
    }

    /** The key at a position: exact among the first, else stored with its group's scale. */
    ghost predicate KeyOk(l: nat, t: nat, c: nat)
      requires Shape() && l < nLayers && t < |keys[l]| && c < stride
      reads this, kSink, k8, kScale
    {
      GroupInRange(t);
      if t < nSink then kSink[l, t, c] == keys[l][t][c]
      else k8[l, t, c] == Quantize(keys[l][t][c], kScale[l, GroupOf(t), c])
    }

    /** The scale of a group: a 127th of the largest magnitude among its lossy keys so far. */
    ghost predicate ScaleOk(l: nat, g: nat, c: nat)
      requires Shape() && l < nLayers && g < nGroups && c < stride
      reads this, kScale
    {
      kScale[l, g, c] == KeyScale(keys[l], nSink, g, c)
    }

    /** The raw keys of the group in progress are kept. */
    ghost predicate RawOk(l: nat, t: nat, c: nat)
      requires Shape() && l < nLayers && t < |keys[l]| && c < stride
      reads this, kRaw
    {
      GroupOf(t) == GroupOf(|keys[l]| - 1) ==> kRaw[l, t % GROUP, c] == keys[l][t][c]
    }

    /** The value at a position: exact among the first, else stored head by head. */
    ghost predicate ValueOk(l: nat, t: nat)
      requires Shape() && l < nLayers && t < |keys[l]|
      reads this, vSink, v8, vScale
    {
      if t < nSink then forall c :: 0 <= c < stride ==> vSink[l, t, c] == vals[l][t][c]
      else forall h :: 0 <= h < nHeads ==> Quantized(HeadOf(vals[l][t], h, headDim), v8[l, t, h], vScale[l, t, h])
    }

    ghost predicate KeysOk(l: nat)
      requires Shape() && l < nLayers
      reads this, kRaw, k8, kScale, kSink
    {
      && (forall t: nat, c: nat :: t < |keys[l]| && c < stride ==> KeyOk(l, t, c))
      && (forall t: nat, c: nat :: t < |keys[l]| && c < stride ==> RawOk(l, t, c))
      && (forall g: nat, c: nat :: g < nGroups && c < stride && GroupStart(g) < |keys[l]| ==> ScaleOk(l, g, c))
    }

    ghost predicate ValuesOk(l: nat)
      requires Shape() && l < nLayers
      reads this, vSink, v8, vScale
    {
      forall t: nat :: t < |keys[l]| ==> ValueOk(l, t)
    }

    ghost predicate Valid()
      reads this, kRaw, k8, kScale, kSink, vSink, v8, vScale
    {
      Shape() && forall l: nat :: l < nLayers ==> KeysOk(l) && ValuesOk(l)
    }

    constructor (nLayers: nat, capacity: nat, nHeads: nat, headDim: nat, nSink: nat)
      ensures Valid() && nSeen == 0
      ensures keys == seq(nLayers, _ => []) && vals == seq(nLayers, _ => [])
      ensures this.nLayers == nLayers && this.capacity == capacity && this.nSink == nSink
      ensures this.nHeads == nHeads && this.headDim == headDim
      ensures fresh(kRaw) && fresh(k8) && fresh(kScale) && fresh(kSink) && fresh(vSink) && fresh(v8) && fresh(vScale)
    {
      ProductNotNegative(nHeads, headDim);
      var stride: nat := nHeads * headDim;
      var nGroups := (capacity + GROUP - 1) / GROUP;
      this.nLayers, this.capacity, this.nGroups, this.nSink := nLayers, capacity, nGroups, nSink;
      this.nHeads, this.headDim, this.stride := nHeads, headDim, stride;
      kRaw := new real[nLayers, GROUP, stride]((_, _, _) => 0.0);
      k8 := new int[nLayers, capacity, stride]((_, _, _) => 0);
      kScale := new real[nLayers, nGroups, stride]((_, _, _) => 0.0);
      kSink := new real[nLayers, nSink, stride]((_, _, _) => 0.0);
      vSink := new real[nLayers, nSink, stride]((_, _, _) => 0.0);
      v8 := new seq<int>[nLayers, capacity, nHeads]((_, _, _) => []);
      vScale := new seq<real>[nLayers, capacity, nHeads]((_, _, _) => []);
      nSeen, keys, vals := 0, seq(nLayers, _ => []), seq(nLayers, _ => []);
    }

    /** The scales of a group start from nothing. */
    method ClearScales(layer: nat, g: nat)
      requires layer < kScale.Length0 && g < kScale.Length1
      modifies kScale
      ensures OnlyRow(kScale, layer, g) && forall c :: 0 <= c < kScale.Length2 ==> kScale[layer, g, c] == 0.0
    {
      for i := 0 to kScale.Length2
        invariant OnlyRow(kScale, layer, g) && forall c :: 0 <= c < i ==> kScale[layer, g, c] == 0.0
      {
        kScale[layer, g, i] := 0.0;
      }
    }

    /** The scales collect the largest magnitudes, one row at a time. */
    method RaiseScales(layer: nat, g: nat, w: nat)
      requires layer < kScale.Length0 && g < kScale.Length1
      requires layer < kRaw.Length0 && w < kRaw.Length1 && kRaw.Length2 == kScale.Length2 && kRaw != kScale
      modifies kScale
      ensures OnlyRow(kScale, layer, g)
      ensures forall c :: 0 <= c < kScale.Length2 ==>
        kScale[layer, g, c] == MaxReal(old(kScale[layer, g, c]), Abs(kRaw[layer, w, c]))
    {
      for i := 0 to kScale.Length2
        invariant OnlyRow(kScale, layer, g)
        invariant forall c :: 0 <= c < i ==>
          kScale[layer, g, c] == MaxReal(old(kScale[layer, g, c]), Abs(kRaw[layer, w, c]))
        invariant forall c :: i <= c < kScale.Length2 ==> kScale[layer, g, c] == old(kScale[layer, g, c])
      {
        kScale[layer, g, i] := MaxReal(kScale[layer, g, i], Abs(kRaw[layer, w, i]));
      }
    }

    method DivideScales(layer: nat, g: nat)
      requires layer < kScale.Length0 && g < kScale.Length1
      modifies kScale
      ensures OnlyRow(kScale, layer, g)
      ensures forall c :: 0 <= c < kScale.Length2 ==> kScale[layer, g, c] == old(kScale[layer, g, c]) / 127.0
    {
      for i := 0 to kScale.Length2
        invariant OnlyRow(kScale, layer, g)
        invariant forall c :: 0 <= c < i ==> kScale[layer, g, c] == old(kScale[layer, g, c]) / 127.0
        invariant forall c :: i <= c < kScale.Length2 ==> kScale[layer, g, c] == old(kScale[layer, g, c])
      {
        kScale[layer, g, i] := kScale[layer, g, i] / 127.0;
      }
    }

    /** Stores a raw row with the scales of its group. */
    method QuantizeRow(layer: nat, g: nat, w: nat, pos: nat)
      requires layer < kScale.Length0 && g < kScale.Length1 && layer < k8.Length0 && pos < k8.Length1
      requires layer < kRaw.Length0 && w < kRaw.Length1 && k8.Length2 == kRaw.Length2 == kScale.Length2
      modifies k8
      ensures OnlyRow(k8, layer, pos)
      ensures forall c :: 0 <= c < k8.Length2 ==>
        k8[layer, pos, c] == Quantize(kRaw[layer, w, c], kScale[layer, g, c])
    {
      hide Quantize;
      for i := 0 to k8.Length2
        invariant OnlyRow(k8, layer, pos)
        invariant forall c :: 0 <= c < i ==> k8[layer, pos, c] == Quantize(kRaw[layer, w, c], kScale[layer, g, c])
      {
        var inv := Inverse(kScale[layer, g, i]);
        QuantizeBy(kRaw[layer, w, i], kScale[layer, g, i]);
        k8[layer, pos, i] := Clamp(Round(Scaled(kRaw[layer, w, i], inv)));
      }
    }

    /** The raw rows of group g are those of `rows` from its start on. */
    ghost predicate RawRows(layer: nat, g: nat, within: nat, rows: seq<Vec>)
      reads kRaw
    {
      && layer < kRaw.Length0 && within < kRaw.Length1 == GROUP && |rows| == GroupStart(g) + within + 1
      && (forall t :: 0 <= t < |rows| ==> |rows[t]| == kRaw.Length2)
      && (forall w, c :: 0 <= w <= within && 0 <= c < kRaw.Length2 ==> kRaw[layer, w, c] == RowAt(rows, GroupStart(g), w)[c])
    }

    /** Recomputes the scales of a group in progress and stores its keys again. */
    method RequantizeGroup(layer: nat, g: nat, within: nat, ghost rows: seq<Vec>)
      requires RawRows(layer, g, within, rows)
      requires layer < kScale.Length0 && g < kScale.Length1 && layer < k8.Length0 && |rows| <= k8.Length1
      requires k8.Length2 == kRaw.Length2 == kScale.Length2 && kRaw != kScale
      modifies kScale, k8
      ensures OnlyRow(kScale, layer, g)
      ensures forall c: nat :: c < kScale.Length2 ==> kScale[layer, g, c] == KeyScale(rows, nSink, g, c)
      ensures OnlyRows(k8, layer, GroupStart(g), |rows|)
      ensures forall t, c: nat :: Max(GroupStart(g), nSink) <= t < |rows| && c < k8.Length2 ==>
        k8[layer, t, c] == Quantize(rows[t][c], kScale[layer, g, c])
    {
      hide Quantize;
      hide MaxAbs;
      hide GroupStart;
      var first := GroupStart(g);
      ClearScales(layer, g);
      NothingLossy(rows, nSink, first);
      for w := 0 to within + 1
        invariant OnlyRow(kScale, layer, g)
        invariant forall c: nat :: c < kScale.Length2 ==>
          kScale[layer, g, c] == MaxAbs(Column(LossyRows(rows, nSink, first, first + w), c))
        modifies kScale
      {
        LossyNext(rows, nSink, first, first + w);
        if first + w < nSink {
          continue;
        }
        RaiseScales(layer, g, w);
      }
      DivideScales(layer, g);
      KeyScaleIs(rows, nSink, g, within);
      for w := 0 to within + 1
        invariant OnlyRows(k8, layer, first, first + w)
        invariant forall t, c: nat :: Max(first, nSink) <= t < first + w && c < k8.Length2 ==>
          k8[layer, t, c] == Quantize(rows[t][c], kScale[layer, g, c])
        modifies k8
      {
        if first + w < nSink {
          continue;
        }
        QuantizeRow(layer, g, w, first + w);
      }
    }

    /** Stores the value row of a position head by head. */
    method StoreValue(layer: nat, pos: nat, v: Vec)
      requires layer < v8.Length0 == vScale.Length0 && pos < v8.Length1 == vScale.Length1
      requires v8.Length2 == vScale.Length2 == nHeads
      modifies v8, vScale
      ensures OnlyRow(v8, layer, pos) && OnlyRow(vScale, layer, pos)
      ensures forall h :: 0 <= h < nHeads ==> Quantized(HeadOf(v, h, headDim), v8[layer, pos, h], vScale[layer, pos, h])
    {
      hide Quantized;
      hide HeadOf;
      for kh := 0 to nHeads
        invariant OnlyRow(v8, layer, pos) && OnlyRow(vScale, layer, pos)
        invariant forall h :: 0 <= h < kh ==> Quantized(HeadOf(v, h, headDim), v8[layer, pos, h], vScale[layer, pos, h])
      {
        var q, scales := QuantHead(HeadOf(v, kh, headDim));
        v8[layer, pos, kh] := q;
        vScale[layer, pos, kh] := scales;
      }
    }

    /** With the new row the raw rows of its group are complete. */
    twostate lemma RawKept(new layer: nat, new pos: nat, new k: Vec)
      requires old(Shape())
      requires Shape() && layer < nLayers && pos == |old(keys)[layer]| < capacity && |k| == stride
      requires old(KeysOk(layer))
      requires OnlyRow(kRaw, layer, pos % GROUP) && forall c :: 0 <= c < stride ==> kRaw[layer, pos % GROUP, c] == k[c]
      ensures RawRows(layer, GroupOf(pos), pos % GROUP, old(keys)[layer] + [k])
    {
      var g, within, rows := GroupOf(pos), pos % GROUP, old(keys)[layer] + [k];
      GroupIs(pos, g);
      forall w, c | 0 <= w <= within && 0 <= c < stride ensures kRaw[layer, w, c] == RowAt(rows, GroupStart(g), w)[c] {
        if w < within {
          var t := GroupStart(g) + w;
          GroupIs(t, g);
          GroupIs(pos - 1, g);
          assert old(RawOk(layer, t, c));
          assert t % GROUP == w;
        }
      }
    }

    /** What an append to one layer does to the tables of keys. */
    twostate predicate KeyTables(layer: nat, pos: nat)
      reads this, kRaw, kScale, k8, kSink
    {
      && OnlyRow(kRaw, layer, pos % GROUP) && OnlyRow(kScale, layer, GroupOf(pos))
      && OnlyRows(k8, layer, GroupStart(GroupOf(pos)), pos + 1) && OnlyRow(kSink, layer, pos)
    }

    twostate lemma OtherKeys(new l: nat, new layer: nat, new pos: nat)
      requires old(Shape())
      requires Shape() && l < nLayers && l != layer && keys[l] == old(keys)[l] && old(KeysOk(l))
      requires KeyTables(layer, pos)
      ensures KeysOk(l)
    {
      hide Quantize;
      hide KeyScale;
      forall t: nat, c: nat | t < |keys[l]| && c < stride ensures KeyOk(l, t, c) && RawOk(l, t, c) {
        GroupInRange(t);
        assert old(KeyOk(l, t, c)) && old(RawOk(l, t, c));
      }
      forall g: nat, c: nat | g < nGroups && c < stride && GroupStart(g) < |keys[l]| ensures ScaleOk(l, g, c) {
        assert old(ScaleOk(l, g, c));
      }
    }

    /** The appended layer's keys: those of the group are stored anew, the others are as they were. */
    twostate lemma AppendedKeys(new layer: nat, new pos: nat, new k: Vec)
      requires old(Shape())
      requires Shape() && layer < nLayers && pos == |old(keys)[layer]| < capacity && |k| == stride
      requires keys[layer] == old(keys)[layer] + [k] && old(KeysOk(layer)) && KeyTables(layer, pos)
      requires GroupOf(pos) < nGroups
      requires forall c :: 0 <= c < stride ==> kRaw[layer, pos % GROUP, c] == k[c]
      requires pos < nSink ==> forall c :: 0 <= c < stride ==> kSink[layer, pos, c] == k[c]
      requires forall c: nat :: c < stride ==> ScaleOk(layer, GroupOf(pos), c)
      requires forall t, c: nat :: Max(GroupStart(GroupOf(pos)), nSink) <= t <= pos && c < stride ==>
        k8[layer, t, c] == Quantize(keys[layer][t][c], kScale[layer, GroupOf(pos), c])
      ensures KeysOk(layer)
    {
      hide Quantize;
      hide KeyScale;
      var g := GroupOf(pos);
      GroupIs(pos, g);
      forall t: nat, c: nat | t < |keys[layer]| && c < stride ensures KeyOk(layer, t, c) && RawOk(layer, t, c) {
        GroupInRange(t);
        GroupIs(t, g);
        if t < pos {
          GroupIs(pos - 1, g);
          assert old(KeyOk(layer, t, c)) && old(RawOk(layer, t, c));
        }
      }
      forall h: nat, c: nat | h < nGroups && c < stride && GroupStart(h) < |keys[layer]| ensures ScaleOk(layer, h, c) {
        GroupsInOrder(h, g);
        GroupsInOrder(g, h);
        if h != g {
          assert old(ScaleOk(layer, h, c));
          FinishedScale(old(keys)[layer], k, nSink, h, c);
        }
      }
    }

    twostate lemma ValuesKept(new l: nat, new layer: nat, new pos: nat, new v: Vec)
      requires old(Shape())
      requires Shape() && l < nLayers && layer < nLayers && pos == |old(keys)[layer]| && |v| == stride
      requires |keys[l]| == |vals[l]| && vals[l] == if l == layer then old(vals)[l] + [v] else old(vals)[l]
      requires old(ValuesOk(l)) && OnlyRow(vSink, layer, pos) && OnlyRow(v8, layer, pos) && OnlyRow(vScale, layer, pos)
      requires pos < capacity
      requires pos < nSink ==> forall c :: 0 <= c < stride ==> vSink[layer, pos, c] == v[c]
      requires pos >= nSink ==> forall h :: 0 <= h < nHeads ==>
        Quantized(HeadOf(v, h, headDim), v8[layer, pos, h], vScale[layer, pos, h])
      ensures ValuesOk(l)
    {
      hide Quantized;
      hide HeadOf;
      forall t: nat | t < |keys[l]| ensures ValueOk(l, t) {
        if l != layer || t != pos {
          assert old(ValueOk(l, t));
        }
      }
    }

    twostate lemma Appended(new layer: nat, new pos: nat, new k: Vec, new v: Vec)
      requires old(Valid()) && layer < nLayers && pos == |old(keys)[layer]| < capacity && |k| == |v| == stride
      requires keys == old(keys)[layer := old(keys)[layer] + [k]] && vals == old(vals)[layer := old(vals)[layer] + [v]]
      requires KeyTables(layer, pos) && OnlyRow(vSink, layer, pos) && OnlyRow(v8, layer, pos) && OnlyRow(vScale, layer, pos)
      requires GroupOf(pos) < nGroups
      requires forall c :: 0 <= c < stride ==> kRaw[layer, pos % GROUP, c] == k[c]
      requires pos < nSink ==> forall c :: 0 <= c < stride ==> kSink[layer, pos, c] == k[c] && vSink[layer, pos, c] == v[c]
      requires forall c: nat :: c < stride ==> kScale[layer, GroupOf(pos), c] == KeyScale(keys[layer], nSink, GroupOf(pos), c)
      requires forall t, c: nat :: Max(GroupStart(GroupOf(pos)), nSink) <= t <= pos && c < stride ==>
        k8[layer, t, c] == Quantize(keys[layer][t][c], kScale[layer, GroupOf(pos), c])
      requires pos >= nSink ==> forall h :: 0 <= h < nHeads ==>
        Quantized(HeadOf(v, h, headDim), v8[layer, pos, h], vScale[layer, pos, h])
      ensures Valid()
    {
      hide Quantize;
      hide Quantized;
      hide KeyScale;
      hide HeadOf;
      hide GroupStart;
      hide KeysOk;
      hide ValuesOk;
      assert Shape();
      AppendedKeys(layer, pos, k);
      forall l: nat | l < nLayers ensures KeysOk(l) && ValuesOk(l) {
        ValuesKept(l, layer, pos, v);
        if l != layer {
          OtherKeys(l, layer, pos);
        }
      }
    }

    /** Appends the key and the value of the next position of a layer. Of the keys before it only
        those of its own group are stored anew. */
    method Append(layer: nat, pos: nat, k: Vec, v: Vec)
      requires Valid() && layer < nLayers && pos == |keys[layer]| < capacity && |k| == |v| == stride
      modifies this`nSeen, this`keys, this`vals, kRaw, k8, kScale, kSink, vSink, v8, vScale
      ensures Valid() && nSeen == pos + 1
      ensures keys == old(keys)[layer := old(keys)[layer] + [k]]
      ensures vals == old(vals)[layer := old(vals)[layer] + [v]]
      ensures OnlyRow(kScale, layer, GroupOf(pos)) && OnlyRows(k8, layer, GroupStart(GroupOf(pos)), pos + 1)
    {
      hide Quantize;
      hide Quantized;
      hide KeyScale;
      hide HeadOf;
      hide GroupStart;
      hide KeysOk;
      hide ValuesOk;
      var within, g := pos % GROUP, pos / GROUP;
      GroupInRange(pos);
      ghost var rows := keys[layer] + [k];
      KeepExact(kRaw, layer, within, k);
      RawKept(layer, pos, k);
      if pos < nSink {
        KeepExact(kSink, layer, pos, k);
        KeepExact(vSink, layer, pos, v);
      } else {
        StoreValue(layer, pos, v);
      }
      RequantizeGroup(layer, g, within, rows);
      nSeen := pos + 1;
      keys := keys[layer := rows];
      vals := vals[layer := vals[layer] + [v]];
      Appended(layer, pos, k, v);
    }

    /**
     * The first keys are exact. The scale of any other key is a 127th of the largest magnitude that its channel has
     * among the lossy keys of its group of 32 positions so far, and the key is off by at most half of it; a key of
     * largest magnitude is stored as 127 or -127.
     */
    lemma KeyError(l: nat, t: nat, c: nat)
      requires Valid() && l < nLayers && t < |keys[l]| && c < stride
      ensures t / 32 < nGroups
      ensures t < nSink ==> kSink[l, t, c] == keys[l][t][c]
      ensures t >= nSink ==> var s := kScale[l, t / 32, c];
        && (forall u :: nSink <= u < |keys[l]| && u / 32 == t / 32 ==> -127.0 * s <= keys[l][u][c] <= 127.0 * s)
        && (exists u :: nSink <= u < |keys[l]| && u / 32 == t / 32 && (keys[l][u][c] == 127.0 * s || keys[l][u][c] == -127.0 * s))
        && -s / 2.0 <= keys[l][t][c] - s * k8[l, t, c] as real <= s / 2.0
        && -127 <= k8[l, t, c] <= 127
        && (s > 0.0 && keys[l][t][c] == 127.0 * s ==> k8[l, t, c] == 127)
        && (s > 0.0 && keys[l][t][c] == -127.0 * s ==> k8[l, t, c] == -127)
    {
      hide Quantize;
      hide KeyScale;
      GroupInRange(t);
      assert KeysOk(l) && KeyOk(l, t, c);
      if t >= nSink {
        GroupIs(t, GroupOf(t));
        assert ScaleOk(l, GroupOf(t), c);
        GroupMagnitude(keys[l], nSink, t, c);
        StoredWithin(keys[l][t][c], kScale[l, GroupOf(t), c]);
      }
    }

    /** The same for values, head by head and block by block; the first values are exact. */
    lemma HeadError(l: nat, t: nat, h: nat, i: nat, row: Vec)
      requires Valid() && l < nLayers && t < |keys[l]| && h < nHeads && i < headDim
      requires h * headDim + headDim <= stride && row == vals[l][t][h * headDim..h * headDim + headDim]
      ensures t < nSink ==> vSink[l, t, h * headDim + i] == row[i]
      ensures t >= nSink ==>
        && |v8[l, t, h]| == headDim && |vScale[l, t, h]| == (headDim + 31) / 32 && i / 32 < |vScale[l, t, h]|
        && var s, q := vScale[l, t, h][i / 32], v8[l, t, h][i];
          && (forall j :: 0 <= j < headDim && j / 32 == i / 32 ==> -127.0 * s <= row[j] <= 127.0 * s)
          && (exists j :: 0 <= j < headDim && j / 32 == i / 32 && (row[j] == 127.0 * s || row[j] == -127.0 * s))
          && -s / 2.0 <= row[i] - s * q as real <= s / 2.0
          && -127 <= q <= 127
          && (s > 0.0 && row[i] == 127.0 * s ==> q == 127) && (s > 0.0 && row[i] == -127.0 * s ==> q == -127)
    {
      hide Quantized;
      NextProduct(h, headDim);
      ProductNotNegative(h, headDim);
      assert ValuesOk(l) && ValueOk(l, t);
      if t >= nSink {
        assert HeadOf(vals[l][t], h, headDim) == row;
        ValueError(row, v8[l, t, h], vScale[l, t, h], i);
      }
    }
  }

  /** The group of position t: no lossy magnitude exceeds 127 scales, and one is as large. */
  lemma GroupMagnitude(keys: seq<Vec>, nSink: nat, t: nat, c: nat)
    requires nSink <= t < |keys| && forall u :: 0 <= u < |keys| ==> c < |keys[u]|
    ensures var s := KeyScale(keys, nSink, t / 32, c);
      && s >= 0.0
      && (forall u :: nSink <= u < |keys| && u / 32 == t / 32 ==> -127.0 * s <= keys[u][c] <= 127.0 * s)
      && (exists u :: nSink <= u < |keys| && u / 32 == t / 32 && (keys[u][c] == 127.0 * s || keys[u][c] == -127.0 * s))
  {
    hide KeyScale;
    var g := GroupOf(t);
    forall u | nSink <= u < |keys| && u / 32 == t / 32
      ensures -127.0 * KeyScale(keys, nSink, g, c) <= keys[u][c] <= 127.0 * KeyScale(keys, nSink, g, c)
    {
      MagnitudeInGroup(keys, nSink, g, u, c);
    }
    var u := LargestInGroup(keys, nSink, g, t, c);
  }

  lemma LargestInGroup(keys: seq<Vec>, nSink: nat, g: nat, t: nat, c: nat) returns (u: nat)
    requires nSink <= t < |keys| && GroupOf(t) == g
    requires forall u :: 0 <= u < |keys| ==> c < |keys[u]|
    ensures nSink <= u < |keys| && GroupOf(u) == g
    ensures Abs(keys[u][c]) == 127.0 * KeyScale(keys, nSink, g, c)
  {
    hide MaxAbs;
    GroupIs(t, g);
    var from, to := Max(GroupStart(g), nSink), Min(GroupStart(g) + GROUP, |keys|);
    var rows := LossyRows(keys, nSink, GroupStart(g), to);
    MaxAbsBounds(Column(rows, c));
    var i :| 0 <= i < |rows| && Abs(Column(rows, c)[i]) == MaxAbs(Column(rows, c));
    u := from + i;
    assert rows[i] == keys[u];
    GroupIs(u, g);
  }

  lemma MagnitudeInGroup(keys: seq<Vec>, nSink: nat, g: nat, t: nat, c: nat)
    requires nSink <= t < |keys| && c < |keys[t]| && GroupOf(t) == g
    ensures Abs(keys[t][c]) <= 127.0 * KeyScale(keys, nSink, g, c)
  {
    hide MaxAbs;
    GroupIs(t, g);
    var to := Min(GroupStart(g) + GROUP, |keys|);
    var rows := LossyRows(keys, nSink, GroupStart(g), to);
    MaxAbsBounds(Column(rows, c));
    assert rows[t - Max(GroupStart(g), nSink)] == keys[t];
    assert Column(rows, c)[t - Max(GroupStart(g), nSink)] == keys[t][c];
  }

  /** A group that is full keeps its scales. */
  lemma FinishedScale(keys: seq<Vec>, k: Vec, nSink: nat, g: nat, c: nat)
    requires GroupStart(g) + GROUP <= |keys|
    ensures KeyScale(keys + [k], nSink, g, c) == KeyScale(keys, nSink, g, c)
  {
    var to := GroupStart(g) + GROUP;
    assert LossyRows(keys + [k], nSink, GroupStart(g), to) == LossyRows(keys, nSink, GroupStart(g), to);
  }

  function RowAt(rows: seq<Vec>, first: nat, w: nat): Vec
    requires first + w < |rows|
  {
    rows[first + w]
  }

  lemma NothingLossy(rows: seq<Vec>, nSink: nat, first: nat)
    ensures forall c: nat :: MaxAbs(Column(LossyRows(rows, nSink, first, first), c)) == 0.0
  {
  }

  lemma LossyNext(rows: seq<Vec>, nSink: nat, first: nat, t: nat)
    requires first <= t < |rows|
    ensures t < nSink ==> LossyRows(rows, nSink, first, t + 1) == LossyRows(rows, nSink, first, t)
    ensures t >= nSink ==> forall c: nat :: c < |rows[t]| ==>
      MaxAbs(Column(LossyRows(rows, nSink, first, t + 1), c))
      == MaxReal(MaxAbs(Column(LossyRows(rows, nSink, first, t), c)), Abs(rows[t][c]))
  {
    if t >= nSink {
      var before := LossyRows(rows, nSink, first, t);
      assert LossyRows(rows, nSink, first, t + 1) == before + [rows[t]];
      forall c: nat | c < |rows[t]|
        ensures MaxAbs(Column(before + [rows[t]], c)) == MaxReal(MaxAbs(Column(before, c)), Abs(rows[t][c]))
      {
        assert Column(before + [rows[t]], c) == Column(before, c) + [rows[t][c]];
        MaxAbsNext(Column(before, c), rows[t][c]);
      }
    }
  }

  lemma KeyScaleIs(rows: seq<Vec>, nSink: nat, g: nat, within: nat)
    requires |rows| == GroupStart(g) + within + 1 && within < GROUP
    ensures forall c: nat ::
      KeyScale(rows, nSink, g, c) == MaxAbs(Column(LossyRows(rows, nSink, GroupStart(g), |rows|), c)) / 127.0
  {
  }
}
