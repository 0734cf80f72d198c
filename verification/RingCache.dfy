/**
 * The ring policy of the key/value cache: the first tokens are pinned, the most recent ones slide
 * through a window. The resident list agrees with the full history.
 */
module RingCache {
  import opened Arith

  /** A key row and a value row. */
  datatype Entry = Entry(k: seq<real>, v: seq<real>)

  datatype Resident = Resident(slot: nat, ropePos: nat)

  /** The slot of token `t`. */
  function SlotFor(nSink: nat, window: nat, t: nat): (s: nat)
    requires window > 0
    ensures s < nSink + window
  {
    if t < nSink then t else nSink + (t - nSink) % window
  }

  /** The oldest token of the window once `n` tokens have been seen. */
  function WindowStart(nSink: nat, window: nat, n: nat): nat {
    if n > nSink && n - nSink > window then n - window else nSink
  }

  /** Token `t` is still resident after `n` tokens. */
  predicate IsResident(nSink: nat, window: nat, n: nat, t: nat) {
    t < n && (t < nSink || t >= WindowStart(nSink, window, n))
  }

  lemma SameResidue(a: nat, b: nat, w: nat)
    requires w > 0 && a <= b < a + w && a % w == b % w
    ensures a == b
  {
    var q := b / w - a / w;
    assert b - a == q * w;
    if q >= 1 {
      MulMonotone(1, q, w);
    } else {
      MulMonotone(q, 0, w);
    }
  }

  /** Resident tokens lie in different slots. */
  lemma ResidentSlotsDiffer(nSink: nat, window: nat, n: nat, t: nat, u: nat)
    requires window > 0 && t < u && IsResident(nSink, window, n, t) && IsResident(nSink, window, n, u)
    ensures SlotFor(nSink, window, t) != SlotFor(nSink, window, u)
  {
    if nSink <= t && (t - nSink) % window == (u - nSink) % window {
      SameResidue(t - nSink, u - nSink, window);
    }
  }

  class Cache {
    const nSink: nat
    const window: nat
    const nLayers: nat
    const slots: array2<Entry>
    var nSeen: nat
    /** Every entry appended so far, by layer. */
    ghost var history: seq<seq<Entry>>

    ghost predicate Valid()
      reads this, slots
    {
      && window > 0
      && slots.Length0 == nLayers && slots.Length1 == nSink + window && |history| == nLayers
      && forall l, t :: 0 <= l < nLayers && 0 <= t < |history[l]| && IsResident(nSink, window, |history[l]|, t)
           ==> Holds(l, t)
    }

    /** The slot of token `t` holds the token's entry. */
    ghost predicate Holds(l: nat, t: nat)
      requires window > 0 && l < nLayers && nLayers == slots.Length0 == |history| && t < |history[l]|
      requires slots.Length1 == nSink + window
      reads this, slots
    {
      slots[l, SlotFor(nSink, window, t)] == history[l][t]
    }

    constructor (nLayers: nat, nSink: nat, window: nat)
      requires window > 0
      ensures Valid() && nSeen == 0 && fresh(slots)
      ensures this.nLayers == nLayers && this.nSink == nSink && this.window == window
      ensures history == seq(nLayers, _ => [])
    {
      this.nLayers, this.nSink, this.window := nLayers, nSink, window;
      slots := new Entry[nLayers, nSink + window]((_, _) => Entry([], []));
      nSeen := 0;
      history := seq(nLayers, _ => []);
    }

    /** Appends the next token's entry of one layer. */
    method Append(layer: nat, pos: nat, k: seq<real>, v: seq<real>)
      requires Valid() && layer < nLayers && pos == |history[layer]|
      modifies this`nSeen, this`history, slots
      ensures Valid() && nSeen == pos + 1
      ensures history == old(history)[layer := old(history)[layer] + [Entry(k, v)]]
    {
      hide SlotFor;
      var slot := SlotFor(nSink, window, pos);
      slots[layer, slot] := Entry(k, v);
      history := history[layer := history[layer] + [Entry(k, v)]];
      nSeen := pos + 1;
      forall l, t | 0 <= l < nLayers && 0 <= t < |history[l]| && IsResident(nSink, window, |history[l]|, t)
        ensures Holds(l, t)
      {
        if l == layer && t < pos {
          assert IsResident(nSink, window, pos, t);
          assert old(Holds(l, t));
          ResidentSlotsDiffer(nSink, window, pos + 1, t, pos);
        } else if l != layer {
          assert old(Holds(l, t));
        }
      }
    }

    /** The token of the `i`-th resident. */
    ghost function TokenAt(i: nat): nat
      reads this
    {
      if i < nSink then i else WindowStart(nSink, window, nSeen) + (i - nSink)
    }

    /**
     * Lists the residents: the pinned tokens, then the window from the oldest to the newest token.
     * They are exactly the resident tokens, in order, at distinct slots that hold their entries,
     * with rope positions 0, 1, 2, and so on.
     */
    method Residents() returns (out: seq<Resident>)
      requires Valid()
      ensures |out| == Min(nSeen, nSink) + Min(nSeen - Min(nSeen, nSink), window) <= nSink + window
      ensures forall i :: 0 <= i < |out| ==>
        out[i].ropePos == i && IsResident(nSink, window, nSeen, TokenAt(i)) && out[i].slot == SlotFor(nSink, window, TokenAt(i))
      ensures forall t: nat :: IsResident(nSink, window, nSeen, t) ==> exists i :: 0 <= i < |out| && TokenAt(i) == t
      ensures forall i, j :: 0 <= i < j < |out| ==> TokenAt(i) < TokenAt(j) && out[i].slot != out[j].slot
      ensures nSeen > 0 ==> |out| > 0 && TokenAt(|out| - 1) == nSeen - 1
      ensures forall l, i :: 0 <= l < nLayers && |history[l]| == nSeen && 0 <= i < |out| ==>
        out[i].slot < slots.Length1 && slots[l, out[i].slot] == history[l][TokenAt(i)]
    {
      hide SlotFor;
      out := [];
      var sinks := Min(nSeen, nSink);
      for t := 0 to sinks
        invariant |out| == t && forall i :: 0 <= i < t ==> out[i] == Resident(SlotFor(nSink, window, i), i)
      {
        out := out + [Resident(SlotFor(nSink, window, t), t)];
      }
      var start := nSink;
      if nSeen > nSink && nSeen - nSink > window {
        start := nSeen - window;
      }
      for t := start to Max(start, nSeen)
        invariant |out| == sinks + (t - start)
        invariant forall i :: 0 <= i < |out| ==> out[i] == Resident(SlotFor(nSink, window, TokenAt(i)), i)
      {
        out := out + [Resident(SlotFor(nSink, window, t), nSink + (t - start))];
      }
      ResidentsListed(start);
      forall i, j | 0 <= i < j < |out| ensures TokenAt(i) < TokenAt(j) && out[i].slot != out[j].slot {
        ResidentSlotsDiffer(nSink, window, nSeen, TokenAt(i), TokenAt(j));
      }
      hide WindowStart;
      forall l, i | 0 <= l < nLayers && |history[l]| == nSeen && 0 <= i < |out|
        ensures out[i].slot < slots.Length1 && slots[l, out[i].slot] == history[l][TokenAt(i)]
      {
        assert Holds(l, TokenAt(i));
      }
    }

    /** The token of a resident, and its slot: the window goes round the slots after the pinned ones. */
    lemma ResidentIs(i: nat)
      requires window > 0 && (i < nSink || nSeen >= nSink)
      ensures TokenAt(i) == if i < nSink then i else Max(nSink, nSeen - window) + i - nSink
      ensures SlotFor(nSink, window, TokenAt(i))
           == if i < nSink then i else nSink + (Max(nSeen - nSink - window, 0) + i - nSink) % window
    {
    }

    lemma ResidentsListed(start: nat)
      requires window > 0 && start == WindowStart(nSink, window, nSeen)
      ensures var count := Min(nSeen, nSink) + (Max(start, nSeen) - start);
        && (forall i: nat :: i < count ==> IsResident(nSink, window, nSeen, TokenAt(i)))
        && (forall t: nat :: IsResident(nSink, window, nSeen, t) ==> exists i: nat :: i < count && TokenAt(i) == t)
    {
      forall t: nat | IsResident(nSink, window, nSeen, t)
        ensures exists i: nat :: i < Min(nSeen, nSink) + (Max(start, nSeen) - start) && TokenAt(i) == t
      {
        var i := if t < nSink then t else nSink + (t - start);
        assert TokenAt(i) == t;
      }
    }
  }
}
