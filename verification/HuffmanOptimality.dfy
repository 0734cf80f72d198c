/**
 * The lower bound behind Huffman's algorithm: merging two lightest weights never raises the
 * cheapest cost any code-length assignment can reach.
 *
 * Lengths are judged by Kraft's inequality with both sides scaled by 2^d, so that a length l
 * takes the integer share 2^(d-l) of the budget 2^d.
 */
module HuffmanOptimality {
  import opened Arith

  function Share(l: nat, d: nat): nat {
    if l <= d then Pow2(d - l) else 0
  }

  function Shares(ls: seq<nat>, d: nat): (r: seq<int>)
    ensures |r| == |ls|
  {
    seq(|ls|, i requires 0 <= i < |ls| => Share(ls[i], d))
  }

  function Products(ws: seq<nat>, ls: seq<nat>): (r: seq<int>)
    requires |ws| == |ls|
    ensures |r| == |ls|
  {
    seq(|ls|, i requires 0 <= i < |ls| => ws[i] * ls[i])
  }

  function Kraft(ls: seq<nat>, d: nat): int {
    Sum(Shares(ls, d))
  }

  /** The cost of the lengths `ls` for the weights `ws`. */
  function Cost(ws: seq<nat>, ls: seq<nat>): int
    requires |ws| == |ls|
  {
    Sum(Products(ws, ls))
  }

  /** The lengths fit depth `d` and satisfy Kraft's inequality. */
  ghost predicate Feasible(ls: seq<nat>, d: nat) {
    && (forall i :: 0 <= i < |ls| ==> ls[i] <= d)
    && Kraft(ls, d) <= Pow2(d)
  }

  /** No feasible lengths for the weights `ws` cost less than `x`. */
  ghost predicate LowerBound(ws: seq<nat>, x: int) {
    forall ls: seq<nat>, d: nat :: |ls| == |ws| && Feasible(ls, d) ==> x <= Cost(ws, ls)
  }

  ghost predicate Lightest(w: nat, ws: seq<nat>) {
    forall i :: 0 <= i < |ws| ==> w <= ws[i]
  }

  lemma KraftUpdate(ls: seq<nat>, i: nat, v: nat, d: nat)
    requires i < |ls|
    ensures Kraft(ls[i := v], d) == Kraft(ls, d) - Share(ls[i], d) + Share(v, d)
  {
    assert Shares(ls[i := v], d) == Shares(ls, d)[i := Share(v, d)];
    SumUpdate(Shares(ls, d), i, Share(v, d));
  }

  lemma KraftRemoveAt(ls: seq<nat>, i: nat, d: nat)
    requires i < |ls|
    ensures Kraft(RemoveAt(ls, i), d) == Kraft(ls, d) - Share(ls[i], d)
  {
    assert Shares(RemoveAt(ls, i), d) == RemoveAt(Shares(ls, d), i);
    SumRemoveAt(Shares(ls, d), i);
  }

  lemma KraftAppend(ls: seq<nat>, l: nat, d: nat)
    ensures Kraft(ls + [l], d) == Kraft(ls, d) + Share(l, d)
  {
    assert Shares(ls + [l], d) == Shares(ls, d) + [Share(l, d)];
    SumConcat(Shares(ls, d), [Share(l, d)]);
  }

  lemma CostUpdate(ws: seq<nat>, ls: seq<nat>, i: nat, v: nat)
    requires i < |ls| == |ws|
    ensures Cost(ws, ls[i := v]) == Cost(ws, ls) - ws[i] * ls[i] + ws[i] * v
  {
    assert Products(ws, ls[i := v]) == Products(ws, ls)[i := ws[i] * v];
    SumUpdate(Products(ws, ls), i, ws[i] * v);
  }

  lemma CostRemoveAt(ws: seq<nat>, ls: seq<nat>, i: nat)
    requires i < |ls| == |ws|
    ensures Cost(RemoveAt(ws, i), RemoveAt(ls, i)) == Cost(ws, ls) - ws[i] * ls[i]
  {
    assert Products(RemoveAt(ws, i), RemoveAt(ls, i)) == RemoveAt(Products(ws, ls), i);
    SumRemoveAt(Products(ws, ls), i);
  }

  lemma CostAppend(ws: seq<nat>, ls: seq<nat>, w: nat, l: nat)
    requires |ls| == |ws|
    ensures Cost(ws + [w], ls + [l]) == Cost(ws, ls) + w * l
  {
    assert Products(ws + [w], ls + [l]) == Products(ws, ls) + [w * l];
    SumConcat(Products(ws, ls), [w * l]);
  }

  lemma {:induction false} CostNonNegative(ws: seq<nat>, ls: seq<nat>)
    requires |ls| == |ws|
    ensures 0 <= Cost(ws, ls)
  {
    if ls != [] {
      CostNonNegative(ws[1..], ls[1..]);
      assert Products(ws, ls)[1..] == Products(ws[1..], ls[1..]);
    }
  }

  function MaxIndex(ls: seq<nat>): (m: nat)
    requires ls != []
    ensures m < |ls| && forall i :: 0 <= i < |ls| ==> ls[i] <= ls[m]
  {
    if |ls| == 1 then 0
    else
      var m := MaxIndex(ls[..|ls| - 1]);
      if ls[m] < ls[|ls| - 1] then |ls| - 1 else m
  }

  lemma Rearrangement(w: nat, v: nat, l: nat, m: nat)
    requires w <= v && l <= m
    ensures w * m + v * l <= w * l + v * m
  {
    assert (v - w) * (m - l) == v * m - v * l - w * m + w * l;
  }

  /** Exchange: a lightest weight can take the longest length at no extra cost. */
  lemma Exchange(w: nat, ws: seq<nat>, l: nat, ls: seq<nat>, d: nat) returns (l': nat, ls': seq<nat>)
    requires |ws| == |ls| && Lightest(w, ws)
    requires l <= d && forall i :: 0 <= i < |ls| ==> ls[i] <= d
    ensures |ls'| == |ls| && l' <= d && forall i :: 0 <= i < |ls| ==> ls'[i] <= l'
    ensures Share(l', d) + Kraft(ls', d) == Share(l, d) + Kraft(ls, d)
    ensures w * l' + Cost(ws, ls') <= w * l + Cost(ws, ls)
    ensures l' == l || l' in ls
  {
    l', ls' := l, ls;
    if ls != [] {
      var m := MaxIndex(ls);
      if l < ls[m] {
        l', ls' := ls[m], ls[m := l];
        KraftUpdate(ls, m, l, d);
        CostUpdate(ws, ls, m, l);
        Rearrangement(w, ws[m], l, ls[m]);
      }
    }
  }

  /** Every share of a length of at most `l` is a multiple of the share of `l`. */
  lemma Distribute(a: int, b: int, u: int)
    ensures (a + b) * u == a * u + b * u
  {
  }

  lemma {:induction false} KraftIsMultiple(ls: seq<nat>, l: nat, d: nat) returns (q: int)
    requires l <= d && forall i :: 0 <= i < |ls| ==> ls[i] <= l
    ensures Kraft(ls, d) == q * Pow2(d - l)
  {
    if ls == [] {
      q := 0;
    } else {
      var rest := KraftIsMultiple(ls[1..], l, d);
      Pow2Add(l - ls[0], d - l);
      assert l - ls[0] + (d - l) == d - ls[0];
      assert Shares(ls, d)[1..] == Shares(ls[1..], d);
      q := Pow2(l - ls[0]) + rest;
      Distribute(Pow2(l - ls[0]), rest, Pow2(d - l));
    }
  }

  /** A unique longest length can be cut back to the second longest: the budget has room for it. */
  lemma CutBack(l: nat, k: nat, ls: seq<nat>, d: nat)
    requires k < l <= d && forall i :: 0 <= i < |ls| ==> ls[i] <= k
    requires Share(l, d) + Share(k, d) + Kraft(ls, d) <= Pow2(d)
    ensures 2 * Share(k, d) + Kraft(ls, d) <= Pow2(d)
  {
    var unit := Share(k, d);
    var q := KraftIsMultiple(ls, k, d);
    Pow2Add(k, d - k);
    NextMultiple(q, unit, Pow2(k), Share(l, d));
  }

  lemma NextMultiple(q: int, unit: nat, n: nat, extra: nat)
    requires extra > 0 && extra + unit + q * unit <= n * unit
    ensures 2 * unit + q * unit <= n * unit
  {
    MulMonotone(n, q + 1, unit);
    MulMonotone(q + 2, n, unit);
    assert (q + 1) * unit == q * unit + unit;
    assert (q + 2) * unit == q * unit + 2 * unit;
  }

  /** Two equally long lengths become one that is shorter by one. */
  lemma ParentShare(l: nat, d: nat)
    requires 0 < l <= d
    ensures Share(l - 1, d) == 2 * Share(l, d)
  {
  }

  lemma {:induction false} KraftNonNegative(ls: seq<nat>, d: nat)
    ensures 0 <= Kraft(ls, d)
  {
    if ls != [] {
      assert Shares(ls, d)[1..] == Shares(ls[1..], d);
      KraftNonNegative(ls[1..], d);
    }
  }

  /** Lengths for two lightest weights and the rest give lengths for the merged weights that save
      at least the merged weight. */
  lemma MergeSaves(wa: nat, wb: nat, ws: seq<nat>, la: nat, lb: nat, ls: seq<nat>, d: nat)
    returns (lc: nat, ls': seq<nat>)
    requires |ws| == |ls| && wa <= wb && Lightest(wb, ws)
    requires la <= d && lb <= d && forall i :: 0 <= i < |ls| ==> ls[i] <= d
    requires Share(la, d) + Share(lb, d) + Kraft(ls, d) <= Pow2(d)
    ensures |ls'| == |ls| && Feasible(ls' + [lc], d)
    ensures Cost(ws, ls') + (wa + wb) * lc + wa + wb <= wa * la + wb * lb + Cost(ws, ls)
  {
    var rest := ls + [lb];
    KraftAppend(ls, lb, d);
    CostAppend(ws, ls, wb, lb);
    var a, rest' := Exchange(wa, ws + [wb], la, rest, d);
    var b0, ls0 := rest'[|ls|], rest'[..|ls|];
    assert rest' == ls0 + [b0];
    KraftAppend(ls0, b0, d);
    CostAppend(ws, ls0, wb, b0);
    var b, ls1 := Exchange(wb, ws, b0, ls0, d);
    assert Share(a, d) + Share(b, d) + Kraft(ls1, d) <= Pow2(d);
    KraftNonNegative(ls1, d);
    if b < a {
      CutBack(a, b, ls1, d);
    }
    assert b > 0;
    lc, ls' := b - 1, ls1;
    ParentShare(b, d);
    KraftAppend(ls1, lc, d);
    ParentCost(wa, wb, a, b);
  }

  lemma ParentCost(wa: nat, wb: nat, a: nat, b: nat)
    requires 0 < b <= a
    ensures (wa + wb) * (b - 1) + wa + wb <= wa * a + wb * b
  {
    assert wa * (a - b) >= 0;
    assert (wa + wb) * (b - 1) + wa + wb + wa * (a - b) == wa * a + wb * b;
  }

  /** A step of the algorithm: taking out the two lightest weights and putting in their sum. */
  lemma MergeLowerBound(ws: seq<nat>, i: nat, j: nat, x: int)
    requires i < |ws| && j < |ws| - 1
    requires Lightest(ws[i], RemoveAt(ws, i))
    requires Lightest(RemoveAt(ws, i)[j], RemoveAt(RemoveAt(ws, i), j))
    requires LowerBound(RemoveAt(RemoveAt(ws, i), j) + [ws[i] + RemoveAt(ws, i)[j]], x)
    ensures LowerBound(ws, x + (ws[i] + RemoveAt(ws, i)[j]))
  {
    var ws1 := RemoveAt(ws, i);
    var ws2 := RemoveAt(ws1, j);
    forall ls: seq<nat>, d: nat | |ls| == |ws| && Feasible(ls, d)
      ensures x + ws[i] + ws1[j] <= Cost(ws, ls)
    {
      var ls1 := RemoveAt(ls, i);
      var ls2 := RemoveAt(ls1, j);
      KraftRemoveAt(ls, i, d);
      KraftRemoveAt(ls1, j, d);
      CostRemoveAt(ws, ls, i);
      CostRemoveAt(ws1, ls1, j);
      var l, ls' := MergeSaves(ws[i], ws1[j], ws2, ls[i], ls1[j], ls2, d);
      CostAppend(ws2, ls', ws[i] + ws1[j], l);
      assert x <= Cost(ws2 + [ws[i] + ws1[j]], ls' + [l]);
    }
  }
}
