/**
 * The grammar automaton. A state is a set of stacks; each stack stands for the strings its places
 * derive from the top down, and the whole state for exactly the ways the input can go on.
 */
module GrammarAutomaton {
  import opened Results
  import opened Arith
  import opened GrammarRules
  import opened GrammarNullable
  import opened GrammarLeftRecursion

  datatype Grammar = Grammar(rules: Rules, root: nat)

  /** What parsing guarantees of a grammar it returns. */
  ghost predicate Valid(g: Grammar) {
    && WellFormed(g.rules) && g.root < |g.rules|
    && exists rank :: LeftRanks(g.rules, rank)
  }

  type Stack = seq<Pos>

  /** The stack holds places where a symbol starts. */
  ghost predicate OnSymbols(g: Grammar, s: Stack) {
    forall i :: 0 <= i < |s| ==> IsPlace(g.rules, s[i]) && !IsEnd(Elem(g.rules, s[i]))
  }

  // ---- a bound on how deep expansion can go -------------------------------------------------

  ghost function RankOf(g: Grammar): (rank: seq<nat>)
    requires Valid(g)
    ensures LeftRanks(g.rules, rank)
  {
    var rank :| LeftRanks(g.rules, rank);
    rank
  }

  ghost function LongestRule(rules: Rules): (m: nat)
    ensures forall id :: 0 <= id < |rules| ==> |rules[id]| <= m
  {
    if rules == [] then 0
    else Max(LongestRule(rules[..|rules| - 1]), |rules[|rules| - 1]|)
  }

  /** More than the references a rule of rank `k` can left-refer to, taken all the way down. */
  ghost function RankWeight(m: nat, k: nat): nat {
    if k == 0 then 0 else m * (1 + RankWeight(m, k - 1))
  }

  lemma {:induction false} RankWeightMonotone(m: nat, j: nat, k: nat)
    requires j <= k && (m > 0 || k == 0)
    ensures RankWeight(m, j) <= RankWeight(m, k)
    decreases k
  {
    if j == 0 {
      ProductNotNegative(m, 1 + if k == 0 then 0 else RankWeight(m, k - 1));
    } else {
      RankWeightMonotone(m, j - 1, k - 1);
      ProductMonotone(m, 1 + RankWeight(m, j - 1), 1 + RankWeight(m, k - 1));
    }
  }

  lemma ProductMonotone(m: nat, a: nat, b: nat)
    requires a <= b
    ensures m * a <= m * b
  {
    MulMonotone(a, b, m);
  }

  ghost function RefWeight(g: Grammar, v: nat): nat
    requires Valid(g) && v < |g.rules|
  {
    1 + RankWeight(LongestRule(g.rules), RankOf(g)[v])
  }

  /** The weight of the references reached from `p` before input is needed. */
  ghost function LeftLoad(g: Grammar, p: Pos): nat
    requires Valid(g) && IsPlace(g.rules, p)
    decreases |g.rules[p.rule]| - p.at
  {
    if Elem(g.rules, p).kind != RuleRef then 0
    else
      PlaceAfter(g.rules, p);
      var v := Elem(g.rules, p).value;
      RefWeight(g, v) + if Nullable(g.rules, v) then LeftLoad(g, Next(p)) else 0
  }

  /** The same for a stack: its entries from the top through the first that is not nullable. */
  ghost function StackLoad(g: Grammar, s: Stack): nat
    requires Valid(g) && OnSymbols(g, s)
  {
    if s == [] then 0
    else
      var p := s[|s| - 1];
      LeftLoad(g, p) + if NullablePlace(g.rules, p) then StackLoad(g, s[..|s| - 1]) else 0
  }

  lemma {:induction false} LeftLoadBound(g: Grammar, p: Pos, k: nat)
    requires Valid(g) && IsPlace(g.rules, p)
    requires forall v: nat :: LeftRef(g.rules, p, v) ==> v < |g.rules| && RankOf(g)[v] < k
    ensures k == 0 ==> LeftLoad(g, p) == 0
    ensures k > 0 ==>
      LeftLoad(g, p) <= (|g.rules[p.rule]| - p.at) * (1 + RankWeight(LongestRule(g.rules), k - 1))
    decreases |g.rules[p.rule]| - p.at
  {
    var m := LongestRule(g.rules);
    if Elem(g.rules, p).kind == RuleRef {
      PlaceAfter(g.rules, p);
      var v := Elem(g.rules, p).value;
      assert LeftRef(g.rules, p, v);
      RankWeightMonotone(m, RankOf(g)[v], k - 1);
      var unit := 1 + RankWeight(m, k - 1);
      var n := |g.rules[p.rule]| - p.at;
      NextProduct(n - 1, unit);
      if Nullable(g.rules, v) {
        assert forall w: nat :: LeftRef(g.rules, Next(p), w) ==> LeftRef(g.rules, p, w);
        LeftLoadBound(g, Next(p), k);
      } else {
        MulMonotone(0, n - 1, unit);
      }
    } else if k > 0 {
      MulMonotone(0, |g.rules[p.rule]| - p.at, 1 + RankWeight(m, k - 1));
    }
  }

  /** An alternate weighs less than a reference to its rule. */
  lemma AlternateLoad(g: Grammar, id: nat, a: nat)
    requires Valid(g) && id < |g.rules| && StartsAlternate(g.rules[id], a)
    ensures IsPlace(g.rules, Pos(id, a))
    ensures LeftLoad(g, Pos(id, a)) < RefWeight(g, id)
  {
    AlternateIsPlace(g.rules, id, a);
    var k := RankOf(g)[id];
    forall v: nat | LeftRef(g.rules, Pos(id, a), v) ensures v < |g.rules| && RankOf(g)[v] < k {
      assert Edge(g.rules, id, v);
    }
    LeftLoadBound(g, Pos(id, a), k);
    if k > 0 {
      var m := LongestRule(g.rules);
      MulMonotone(|g.rules[id]| - a, m, 1 + RankWeight(m, k - 1));
    }
  }

  function Push(g: Grammar, s: Stack, p: Pos): Stack
    requires p.rule < |g.rules| && p.at < |g.rules[p.rule]|
  {
    if IsEnd(Elem(g.rules, p)) then s else s + [p]
  }

  lemma PushLoad(g: Grammar, s: Stack, p: Pos)
    requires Valid(g) && OnSymbols(g, s) && IsPlace(g.rules, p)
    ensures OnSymbols(g, Push(g, s, p))
    ensures StackLoad(g, Push(g, s, p)) == LeftLoad(g, p) + if NullablePlace(g.rules, p) then StackLoad(g, s) else 0
  {
    if IsEnd(Elem(g.rules, p)) {
      DerivesAtEnd(g.rules, p, []);
    } else {
      assert (s + [p])[..|s|] == s;
    }
  }

  /** The stack in which the reference at `p` has been replaced by an alternate of its rule. */
  ghost function Expand(g: Grammar, base: Stack, p: Pos, a: nat): (s: Stack)
    requires Valid(g) && OnSymbols(g, base) && IsPlace(g.rules, p) && Elem(g.rules, p).kind == RuleRef
    requires Elem(g.rules, p).value < |g.rules| && StartsAlternate(g.rules[Elem(g.rules, p).value], a)
    ensures OnSymbols(g, s)
  {
    PlaceAfter(g.rules, p);
    AlternateIsPlace(g.rules, Elem(g.rules, p).value, a);
    PushLoad(g, base, Next(p));
    PushLoad(g, Push(g, base, Next(p)), Pos(Elem(g.rules, p).value, a));
    Push(g, Push(g, base, Next(p)), Pos(Elem(g.rules, p).value, a))
  }

  /** Expanding a reference lowers the load, since no rule left-refers to itself. */
  lemma ExpandLowersLoad(g: Grammar, base: Stack, p: Pos, a: nat)
    requires Valid(g) && OnSymbols(g, base) && IsPlace(g.rules, p) && Elem(g.rules, p).kind == RuleRef
    requires Elem(g.rules, p).value < |g.rules| && StartsAlternate(g.rules[Elem(g.rules, p).value], a)
    ensures OnSymbols(g, base + [p])
    ensures StackLoad(g, Expand(g, base, p, a)) < StackLoad(g, base + [p])
  {
    var id := Elem(g.rules, p).value;
    PlaceAfter(g.rules, p);
    AlternateLoad(g, id, a);
    PushLoad(g, base, Next(p));
    PushLoad(g, Push(g, base, Next(p)), Pos(id, a));
    PushLoad(g, base, p);
    NullablePlaceAtRef(g.rules, p);
    if NullablePlace(g.rules, Pos(id, a)) {
      assert Nullable(g.rules, id);
    }
  }

  // ---- the steps of the automaton -----------------------------------------------------------

  ghost function AddNew(out: seq<Stack>, s: Stack): seq<Stack> {
    if s in out then out else out + [s]
  }

  /** The next index at or after `i` where an alternate ends. */
  function AlternateEnd(r: Rule, i: nat): (j: nat)
    requires i < |r| && r[|r| - 1].kind == End
    ensures i <= j < |r| && IsEnd(r[j]) && forall k :: i <= k < j ==> !IsEnd(r[k])
    decreases |r| - i
  {
    if IsEnd(r[i]) then i else AlternateEnd(r, i + 1)
  }

  lemma AlternateEnds(g: Grammar, id: nat, a: nat)
    requires Valid(g) && id < |g.rules| && StartsAlternate(g.rules[id], a)
    ensures var r := g.rules[id];
      && a < |r| && r[|r| - 1].kind == End
      && a <= AlternateEnd(r, a) < |r|
      && (r[AlternateEnd(r, a)].kind == Alt ==> AlternateEnd(r, a) + 1 < |r| && StartsAlternate(r, AlternateEnd(r, a) + 1))
  {
    assert WellFormedRule(g.rules[id], |g.rules|);
  }

  /** Where the alternate after the one at `a` starts. */
  ghost function NextAlternate(g: Grammar, id: nat, a: nat): (b: Option<nat>)
    requires Valid(g) && id < |g.rules| && StartsAlternate(g.rules[id], a)
    ensures b.Some? ==> a < b.value && StartsAlternate(g.rules[id], b.value)
  {
    AlternateEnds(g, id, a);
    var r := g.rules[id];
    if r[AlternateEnd(r, a)].kind == Alt then Some(AlternateEnd(r, a) + 1) else None
  }

  /** The stacks reached from `s` by expanding references, added to `out`. */
  ghost function Advance(g: Grammar, s: Stack, out: seq<Stack>): seq<Stack>
    requires Valid(g) && OnSymbols(g, s)
    decreases StackLoad(g, s), 1, 0
  {
    if s == [] then AddNew(out, s)
    else
      var p := s[|s| - 1];
      if Elem(g.rules, p).kind == RuleRef then
        PlaceAfter(g.rules, p);
        AlternateIsPlace(g.rules, Elem(g.rules, p).value, 0);
        assert s[..|s| - 1] + [p] == s;
        AdvanceAlternates(g, s[..|s| - 1], p, 0, out)
      else AddNew(out, s)
  }

  ghost function AdvanceAlternates(g: Grammar, base: Stack, p: Pos, a: nat, out: seq<Stack>): seq<Stack>
    requires Valid(g) && OnSymbols(g, base) && IsPlace(g.rules, p) && Elem(g.rules, p).kind == RuleRef
    requires Elem(g.rules, p).value < |g.rules| && StartsAlternate(g.rules[Elem(g.rules, p).value], a)
    requires OnSymbols(g, base + [p])
    decreases StackLoad(g, base + [p]), 0, |g.rules[Elem(g.rules, p).value]| - a
  {
    ExpandLowersLoad(g, base, p, a);
    var out1 := Advance(g, Expand(g, base, p, a), out);
    match NextAlternate(g, Elem(g.rules, p).value, a)
    case Some(b) => AdvanceAlternates(g, base, p, b, out1)
    case None => out1
  }

  ghost function AcceptOne(g: Grammar, s: Stack, c: nat, out: seq<Stack>): seq<Stack>
    requires Valid(g) && OnSymbols(g, s)
  {
    if s == [] then out
    else
      var p := s[|s| - 1];
      if OpensSet(Elem(g.rules, p)) && Accepts(g.rules[p.rule], p.at, c) then
        PlaceAfter(g.rules, p);
        PushLoad(g, s[..|s| - 1], PastSet(g.rules, p));
        Advance(g, Push(g, s[..|s| - 1], PastSet(g.rules, p)), out)
      else out
  }

  /** The stacks after the code point `c`. */
  ghost function Accept(g: Grammar, stacks: seq<Stack>, c: nat): seq<Stack>
    requires Valid(g) && forall i :: 0 <= i < |stacks| ==> OnSymbols(g, stacks[i])
  {
    if stacks == [] then []
    else AcceptOne(g, stacks[|stacks| - 1], c, Accept(g, stacks[..|stacks| - 1], c))
  }

  ghost function StartFrom(g: Grammar, a: nat, out: seq<Stack>): seq<Stack>
    requires Valid(g) && StartsAlternate(g.rules[g.root], a)
    decreases |g.rules[g.root]| - a
  {
    AlternateIsPlace(g.rules, g.root, a);
    PushLoad(g, [], Pos(g.root, a));
    var out1 := Advance(g, Push(g, [], Pos(g.root, a)), out);
    match NextAlternate(g, g.root, a)
    case Some(b) => StartFrom(g, b, out1)
    case None => out1
  }

  /** The stacks before any input. */
  ghost function Start(g: Grammar): seq<Stack>
    requires Valid(g)
  {
    AlternateIsPlace(g.rules, g.root, 0);
    assert WellFormedRule(g.rules[g.root], |g.rules|);
    StartFrom(g, 0, [])
  }

  // ---- what a state looks like ----------------------------------------------------------------

  /** The stack is empty or waits for a character. */
  predicate Waits(g: Grammar, s: Stack)
    requires forall i :: 0 <= i < |s| ==> s[i].rule < |g.rules| && s[i].at < |g.rules[s[i].rule]|
  {
    s == [] || OpensSet(Elem(g.rules, s[|s| - 1]))
  }

  ghost predicate IsState(g: Grammar, stacks: seq<Stack>) {
    && (forall i :: 0 <= i < |stacks| ==> OnSymbols(g, stacks[i]) && Waits(g, stacks[i]))
    && (forall i, j :: 0 <= i < j < |stacks| ==> stacks[i] != stacks[j])
  }

  lemma {:induction false} AdvanceIsState(g: Grammar, s: Stack, out: seq<Stack>)
    requires Valid(g) && OnSymbols(g, s) && IsState(g, out)
    ensures IsState(g, Advance(g, s, out))
    decreases StackLoad(g, s), 1, 0
  {
    if s != [] {
      var p := s[|s| - 1];
      if Elem(g.rules, p).kind == RuleRef {
        PlaceAfter(g.rules, p);
        AlternateIsPlace(g.rules, Elem(g.rules, p).value, 0);
        assert s[..|s| - 1] + [p] == s;
        AlternatesAreState(g, s[..|s| - 1], p, 0, out);
      }
    }
  }

  lemma {:induction false} AlternatesAreState(g: Grammar, base: Stack, p: Pos, a: nat, out: seq<Stack>)
    requires Valid(g) && OnSymbols(g, base) && IsPlace(g.rules, p) && Elem(g.rules, p).kind == RuleRef
    requires Elem(g.rules, p).value < |g.rules| && StartsAlternate(g.rules[Elem(g.rules, p).value], a)
    requires OnSymbols(g, base + [p]) && IsState(g, out)
    ensures IsState(g, AdvanceAlternates(g, base, p, a, out))
    decreases StackLoad(g, base + [p]), 0, |g.rules[Elem(g.rules, p).value]| - a
  {
    hide StackLoad;
    hide LeftLoad;
    hide Expand;
    hide OnSymbols;
    hide StartsAlternate;
    hide AlternateEnd;
    hide Valid;
    hide Advance;
    hide IsState;
    ExpandLowersLoad(g, base, p, a);
    AdvanceIsState(g, Expand(g, base, p, a), out);
    hide NextAlternate;
    var next := NextAlternate(g, Elem(g.rules, p).value, a);
    if next.Some? {
      AlternatesAreState(g, base, p, next.value, Advance(g, Expand(g, base, p, a), out));
    }
  }

  lemma AcceptOneIsState(g: Grammar, s: Stack, c: nat, out: seq<Stack>)
    requires Valid(g) && OnSymbols(g, s) && IsState(g, out)
    ensures IsState(g, AcceptOne(g, s, c, out))
  {
    if s != [] {
      var p := s[|s| - 1];
      if OpensSet(Elem(g.rules, p)) && Accepts(g.rules[p.rule], p.at, c) {
        PlaceAfter(g.rules, p);
        PushLoad(g, s[..|s| - 1], PastSet(g.rules, p));
        AdvanceIsState(g, Push(g, s[..|s| - 1], PastSet(g.rules, p)), out);
      }
    }
  }

  lemma {:induction false} AcceptIsState(g: Grammar, stacks: seq<Stack>, c: nat)
    requires Valid(g) && forall i :: 0 <= i < |stacks| ==> OnSymbols(g, stacks[i])
    ensures IsState(g, Accept(g, stacks, c))
  {
    if stacks != [] {
      AcceptIsState(g, stacks[..|stacks| - 1], c);
      AcceptOneIsState(g, stacks[|stacks| - 1], c, Accept(g, stacks[..|stacks| - 1], c));
    }
  }

  lemma {:induction false} StartFromIsState(g: Grammar, a: nat, out: seq<Stack>)
    requires Valid(g) && StartsAlternate(g.rules[g.root], a) && IsState(g, out)
    ensures IsState(g, StartFrom(g, a, out))
    decreases |g.rules[g.root]| - a
  {
    hide LeftLoad;
    hide StackLoad;
    hide Advance;
    hide IsState;
    AlternateIsPlace(g.rules, g.root, a);
    PushLoad(g, [], Pos(g.root, a));
    hide NextAlternate;
    hide StartsAlternate;
    hide OnSymbols;
    AdvanceIsState(g, Push(g, [], Pos(g.root, a)), out);
    var next := NextAlternate(g, g.root, a);
    if next.Some? {
      StartFromIsState(g, next.value, Advance(g, Push(g, [], Pos(g.root, a)), out));
    }
  }

  lemma StartIsState(g: Grammar)
    requires Valid(g)
    ensures IsState(g, Start(g))
  {
    AlternateIsPlace(g.rules, g.root, 0);
    assert WellFormedRule(g.rules[g.root], |g.rules|);
    StartFromIsState(g, 0, []);
  }

  // ---- the language of stacks -----------------------------------------------------------------

  /** The stack derives `w`, its top place first. */
  ghost predicate StackDerives(rules: Rules, s: Stack, w: seq<nat>) {
    if s == [] then w == []
    else exists k: nat :: k <= |w| && Derives(rules, s[|s| - 1], w[..k]) && StackDerives(rules, s[..|s| - 1], w[k..])
  }

  ghost predicate TopSplits(rules: Rules, base: Stack, p: Pos, w: seq<nat>, k: nat) {
    k <= |w| && Derives(rules, p, w[..k]) && StackDerives(rules, base, w[k..])
  }

  lemma StackSplits(rules: Rules, base: Stack, p: Pos, w: seq<nat>)
    ensures StackDerives(rules, base + [p], w) <==> exists k: nat :: TopSplits(rules, base, p, w, k)
  {
    assert (base + [p])[..|base|] == base;
    if StackDerives(rules, base + [p], w) {
      var k: nat :| k <= |w| && Derives(rules, p, w[..k]) && StackDerives(rules, base, w[k..]);
      assert TopSplits(rules, base, p, w, k);
    }
  }

  /** Some stack derives `w`: the input can go on with `w` and be complete. */
  ghost predicate StateDerives(rules: Rules, stacks: seq<Stack>, w: seq<nat>) {
    exists i :: 0 <= i < |stacks| && StackDerives(rules, stacks[i], w)
  }

  ghost predicate InLanguage(g: Grammar, w: seq<nat>)
    requires g.root < |g.rules|
  {
    RuleDerives(g.rules, g.root, w)
  }

  lemma PushDerives(g: Grammar, base: Stack, p: Pos, w: seq<nat>)
    requires IsPlace(g.rules, p)
    ensures StackDerives(g.rules, Push(g, base, p), w) <==> exists k: nat :: TopSplits(g.rules, base, p, w, k)
  {
    if IsEnd(Elem(g.rules, p)) {
      assert w[..0] == [] && w[0..] == w;
      DerivesAtEnd(g.rules, p, w[..0]);
      assert StackDerives(g.rules, base, w) ==> TopSplits(g.rules, base, p, w, 0);
      forall k: nat | TopSplits(g.rules, base, p, w, k) ensures k == 0 {
        DerivesAtEnd(g.rules, p, w[..k]);
      }
    } else {
      StackSplits(g.rules, base, p, w);
    }
  }

  /** A reference on top derives what its alternates derive in its place. */
  lemma ExpandDerives(g: Grammar, base: Stack, p: Pos, w: seq<nat>)
    requires Valid(g) && OnSymbols(g, base) && IsPlace(g.rules, p) && Elem(g.rules, p).kind == RuleRef
    ensures Elem(g.rules, p).value < |g.rules|
    ensures var id := Elem(g.rules, p).value;
      StackDerives(g.rules, base + [p], w) <==>
        exists a: nat :: StartsAlternate(g.rules[id], a) && StackDerives(g.rules, Expand(g, base, p, a), w)
  {
    hide LeftLoad;
    hide StackLoad;
    hide StackDerives;
    hide Derives;
    hide IsParse;
    PlaceAfter(g.rules, p);
    var id := Elem(g.rules, p).value;
    StackSplits(g.rules, base, p, w);
    if StackDerives(g.rules, base + [p], w) {
      var k: nat :| TopSplits(g.rules, base, p, w, k);
      DerivesAtRef(g.rules, p, w[..k]);
      var j: nat :| CallSplits(g.rules, id, Next(p), w[..k], j);
      var a: nat :| StartsAlternate(g.rules[id], a) && Derives(g.rules, Pos(id, a), w[..k][..j]);
      AlternateIsPlace(g.rules, id, a);
      JoinSplit(g, base, p, a, w, k, j);
    }
    if a: nat :| StartsAlternate(g.rules[id], a) && StackDerives(g.rules, Expand(g, base, p, a), w) {
      ExpandedDerives(g, base, p, a, w);
    }
  }

  /** What a stack derives with an alternate in place of a reference it derives with the reference. */
  lemma ExpandedDerives(g: Grammar, base: Stack, p: Pos, a: nat, w: seq<nat>)
    requires Valid(g) && OnSymbols(g, base) && IsPlace(g.rules, p) && Elem(g.rules, p).kind == RuleRef
    requires Elem(g.rules, p).value < |g.rules| && StartsAlternate(g.rules[Elem(g.rules, p).value], a)
    requires StackDerives(g.rules, Expand(g, base, p, a), w)
    ensures exists k: nat :: TopSplits(g.rules, base, p, w, k)
  {
    hide LeftLoad;
    hide StackLoad;
    hide StackDerives;
    hide Derives;
    hide IsParse;
    PlaceAfter(g.rules, p);
    var id := Elem(g.rules, p).value;
    AlternateIsPlace(g.rules, id, a);
    PushDerives(g, Push(g, base, Next(p)), Pos(id, a), w);
    var j: nat :| TopSplits(g.rules, Push(g, base, Next(p)), Pos(id, a), w, j);
    PushDerives(g, base, Next(p), w[j..]);
    var l: nat :| TopSplits(g.rules, base, Next(p), w[j..], l);
    hide Valid;
    hide Push;
    var k := j + l;
    assert w[..k][..j] == w[..j] && w[..k][j..] == w[j..][..l] && w[j..][l..] == w[k..];
    assert CallSplits(g.rules, id, Next(p), w[..k], j);
    DerivesAtRef(g.rules, p, w[..k]);
    assert TopSplits(g.rules, base, p, w, k);
  }

  lemma JoinSplit(g: Grammar, base: Stack, p: Pos, a: nat, w: seq<nat>, k: nat, j: nat)
    requires Valid(g) && OnSymbols(g, base) && IsPlace(g.rules, p) && Elem(g.rules, p).kind == RuleRef
    requires Elem(g.rules, p).value < |g.rules| && StartsAlternate(g.rules[Elem(g.rules, p).value], a)
    requires TopSplits(g.rules, base, p, w, k) && j <= k
    requires Derives(g.rules, Pos(Elem(g.rules, p).value, a), w[..k][..j]) && Derives(g.rules, Next(p), w[..k][j..])
    ensures StackDerives(g.rules, Expand(g, base, p, a), w)
  {
    PlaceAfter(g.rules, p);
    var id := Elem(g.rules, p).value;
    AlternateIsPlace(g.rules, id, a);
    assert w[..k][..j] == w[..j] && w[..k][j..] == w[j..][..k - j] && w[j..][k - j..] == w[k..];
    assert TopSplits(g.rules, base, Next(p), w[j..], k - j);
    PushDerives(g, base, Next(p), w[j..]);
    assert TopSplits(g.rules, Push(g, base, Next(p)), Pos(id, a), w, j);
    PushDerives(g, Push(g, base, Next(p)), Pos(id, a), w);
  }

  lemma AddNewDerives(rules: Rules, out: seq<Stack>, s: Stack, w: seq<nat>)
    ensures StateDerives(rules, AddNew(out, s), w) <==> StateDerives(rules, out, w) || StackDerives(rules, s, w)
  {
    if s !in out {
      var r := out + [s];
      if StateDerives(rules, out, w) {
        var i :| 0 <= i < |out| && StackDerives(rules, out[i], w);
        assert r[i] == out[i];
      }
      if StackDerives(rules, s, w) {
        assert r[|out|] == s;
      }
    }
  }

  /** Expansion adds exactly the stack's language. */
  lemma {:induction false} AdvanceDerives(g: Grammar, s: Stack, out: seq<Stack>, w: seq<nat>)
    requires Valid(g) && OnSymbols(g, s)
    ensures StateDerives(g.rules, Advance(g, s, out), w) <==> StateDerives(g.rules, out, w) || StackDerives(g.rules, s, w)
    decreases StackLoad(g, s), 1, 0
  {
    AddNewDerives(g.rules, out, s, w);
    if s != [] {
      var p := s[|s| - 1];
      if Elem(g.rules, p).kind == RuleRef {
        PlaceAfter(g.rules, p);
        AlternateIsPlace(g.rules, Elem(g.rules, p).value, 0);
        assert s[..|s| - 1] + [p] == s;
        AlternatesDerive(g, s[..|s| - 1], p, 0, out, w);
        ExpandDerives(g, s[..|s| - 1], p, w);
      }
    }
  }

  lemma LaterAlternate(g: Grammar, id: nat, a: nat, b: nat)
    requires Valid(g) && id < |g.rules| && StartsAlternate(g.rules[id], a) && StartsAlternate(g.rules[id], b) && a < b
    ensures NextAlternate(g, id, a).Some? && NextAlternate(g, id, a).value <= b
  {
    assert WellFormedRule(g.rules[id], |g.rules|);
  }

  lemma {:induction false} AlternatesDerive(g: Grammar, base: Stack, p: Pos, a: nat, out: seq<Stack>, w: seq<nat>)
    requires Valid(g) && OnSymbols(g, base) && IsPlace(g.rules, p) && Elem(g.rules, p).kind == RuleRef
    requires Elem(g.rules, p).value < |g.rules| && StartsAlternate(g.rules[Elem(g.rules, p).value], a)
    requires OnSymbols(g, base + [p])
    ensures StateDerives(g.rules, AdvanceAlternates(g, base, p, a, out), w) <==>
      StateDerives(g.rules, out, w)
      || exists b: nat :: a <= b && StartsAlternate(g.rules[Elem(g.rules, p).value], b)
                          && StackDerives(g.rules, Expand(g, base, p, b), w)
    decreases StackLoad(g, base + [p]), 0, |g.rules[Elem(g.rules, p).value]| - a
  {
    hide StackLoad;
    hide LeftLoad;
    hide OnSymbols;
    hide StackDerives;
    hide StateDerives;
    hide Expand;
    hide Advance;
    hide NextAlternate;
    ExpandLowersLoad(g, base, p, a);
    var id := Elem(g.rules, p).value;
    AdvanceDerives(g, Expand(g, base, p, a), out, w);
    var next := NextAlternate(g, id, a);
    forall b: nat | a < b && StartsAlternate(g.rules[id], b) ensures next.Some? && next.value <= b {
      LaterAlternate(g, id, a, b);
    }
    if next.Some? {
      AlternatesDerive(g, base, p, next.value, Advance(g, Expand(g, base, p, a), out), w);
    }
  }

  lemma AcceptOneDerives(g: Grammar, s: Stack, c: nat, out: seq<Stack>, w: seq<nat>)
    requires Valid(g) && OnSymbols(g, s) && Waits(g, s)
    ensures StateDerives(g.rules, AcceptOne(g, s, c, out), w) <==>
      StateDerives(g.rules, out, w) || StackDerives(g.rules, s, [c] + w)
  {
    hide Advance;
    hide StateDerives;
    hide StackDerives;
    hide Derives;
    hide LeftLoad;
    hide StackLoad;
    if s != [] {
      var base, p := s[..|s| - 1], s[|s| - 1];
      var q := PastSet(g.rules, p);
      assert s == base + [p];
      PlaceAfter(g.rules, p);
      PushLoad(g, base, q);
      StackSplits(g.rules, base, p, [c] + w);
      PushDerives(g, base, q, w);
      AdvanceDerives(g, Push(g, base, q), out, w);
      SetTakes(g, base, p, c, w);
      hide TopSplits;
      hide Push;
    } else {
      NothingLeft(g.rules, [c] + w);
    }
  }

  lemma NothingLeft(rules: Rules, w: seq<nat>)
    ensures StackDerives(rules, [], w) <==> w == []
  {
  }

  /** A set on top of a stack takes one code point that it accepts. */
  lemma SetTakes(g: Grammar, base: Stack, p: Pos, c: nat, w: seq<nat>)
    requires IsPlace(g.rules, p) && OpensSet(Elem(g.rules, p))
    ensures (exists k: nat :: TopSplits(g.rules, base, p, [c] + w, k)) <==>
      Accepts(g.rules[p.rule], p.at, c) && exists k: nat :: TopSplits(g.rules, base, PastSet(g.rules, p), w, k)
  {
    hide StackDerives;
    hide Derives;
    hide Accepts;
    var q, cw := PastSet(g.rules, p), [c] + w;
    if k: nat :| TopSplits(g.rules, base, p, cw, k) {
      DerivesAtSet(g.rules, p, cw[..k]);
      FirstApart(c, w, k - 1);
      assert TopSplits(g.rules, base, q, w, k - 1);
    }
    if k: nat :| Accepts(g.rules[p.rule], p.at, c) && TopSplits(g.rules, base, q, w, k) {
      DerivesAtSet(g.rules, p, cw[..k + 1]);
      FirstApart(c, w, k);
      assert TopSplits(g.rules, base, p, cw, k + 1);
    }
  }

  lemma FirstApart(c: nat, w: seq<nat>, k: nat)
    requires k <= |w|
    ensures var cw := [c] + w;
      cw[..k + 1] != [] && cw[..k + 1][0] == c && cw[..k + 1][1..] == w[..k] && cw[k + 1..] == w[k..]
  {
    var cw := [c] + w;
    assert cw[1..] == w;
    assert cw[..k + 1] == [c] + w[..k];
    assert ([c] + w[..k])[1..] == w[..k];
  }

  /** Accepting a code point is taking the derivative of the state's language. */
  lemma {:induction false} AcceptDerives(g: Grammar, stacks: seq<Stack>, c: nat, w: seq<nat>)
    requires Valid(g) && IsState(g, stacks)
    ensures StateDerives(g.rules, Accept(g, stacks, c), w) <==> StateDerives(g.rules, stacks, [c] + w)
  {
    if stacks != [] {
      var init, last := stacks[..|stacks| - 1], stacks[|stacks| - 1];
      AcceptDerives(g, init, c, w);
      AcceptOneDerives(g, last, c, Accept(g, init, c), w);
      var cw := [c] + w;
      if StateDerives(g.rules, stacks, cw) {
        var i :| 0 <= i < |stacks| && StackDerives(g.rules, stacks[i], cw);
        assert i < |init| ==> init[i] == stacks[i];
      }
      if StateDerives(g.rules, init, cw) {
        var i :| 0 <= i < |init| && StackDerives(g.rules, init[i], cw);
        assert init[i] == stacks[i];
      }
    }
  }

  lemma AloneDerives(g: Grammar, p: Pos, w: seq<nat>)
    requires Valid(g) && IsPlace(g.rules, p)
    ensures StackDerives(g.rules, Push(g, [], p), w) <==> Derives(g.rules, p, w)
  {
    PushDerives(g, [], p, w);
    assert w[..|w|] == w && w[|w|..] == [];
    assert Derives(g.rules, p, w) ==> TopSplits(g.rules, [], p, w, |w|);
  }

  lemma {:induction false} StartFromDerives(g: Grammar, a: nat, out: seq<Stack>, w: seq<nat>)
    requires Valid(g) && StartsAlternate(g.rules[g.root], a)
    ensures StateDerives(g.rules, StartFrom(g, a, out), w) <==>
      StateDerives(g.rules, out, w)
      || exists b: nat :: a <= b && StartsAlternate(g.rules[g.root], b) && Derives(g.rules, Pos(g.root, b), w)
    decreases |g.rules[g.root]| - a
  {
    hide LeftLoad;
    hide StackLoad;
    hide Advance;
    hide StateDerives;
    hide Derives;
    var p := Pos(g.root, a);
    AlternateIsPlace(g.rules, g.root, a);
    PushLoad(g, [], p);
    AdvanceDerives(g, Push(g, [], p), out, w);
    AloneDerives(g, p, w);
    hide NextAlternate;
    hide StackDerives;
    hide Push;
    var next := NextAlternate(g, g.root, a);
    forall b: nat | a < b && StartsAlternate(g.rules[g.root], b) ensures next.Some? && next.value <= b {
      LaterAlternate(g, g.root, a, b);
    }
    if next.Some? {
      StartFromDerives(g, next.value, Advance(g, Push(g, [], p), out), w);
    }
  }

  lemma StartDerives(g: Grammar, w: seq<nat>)
    requires Valid(g)
    ensures StateDerives(g.rules, Start(g), w) <==> InLanguage(g, w)
  {
    AlternateIsPlace(g.rules, g.root, 0);
    assert WellFormedRule(g.rules[g.root], |g.rules|);
    StartFromDerives(g, 0, [], w);
  }

  // ---- runs -------------------------------------------------------------------------------------

  /** The stacks after the code points `w`, one after the other from `stacks`. */
  ghost function AcceptAll(g: Grammar, stacks: seq<Stack>, w: seq<nat>): (r: seq<Stack>)
    requires Valid(g) && IsState(g, stacks)
    ensures IsState(g, r)
    decreases |w|
  {
    if w == [] then stacks
    else
      AcceptIsState(g, stacks, w[0]);
      AcceptAll(g, Accept(g, stacks, w[0]), w[1..])
  }

  /** From any state, accepting `w` leaves exactly what could follow `w`. */
  lemma {:induction false} AcceptAllDerives(g: Grammar, stacks: seq<Stack>, w: seq<nat>, v: seq<nat>)
    requires Valid(g) && IsState(g, stacks)
    ensures StateDerives(g.rules, AcceptAll(g, stacks, w), v) <==> StateDerives(g.rules, stacks, w + v)
    decreases |w|
  {
    hide StateDerives;
    hide Accept;
    if w == [] {
      assert w + v == v;
    } else {
      AcceptIsState(g, stacks, w[0]);
      AcceptAllDerives(g, Accept(g, stacks, w[0]), w[1..], v);
      AcceptDerives(g, stacks, w[0], w[1..] + v);
      assert [w[0]] + (w[1..] + v) == w + v;
    }
  }

  /** A stack that waits for a character does not derive the empty string. */
  lemma WaitingNeedsInput(g: Grammar, s: Stack)
    requires OnSymbols(g, s) && Waits(g, s) && s != []
    ensures !StackDerives(g.rules, s, [])
  {
    var e: seq<nat> := [];
    assert s == s[..|s| - 1] + [s[|s| - 1]];
    StackSplits(g.rules, s[..|s| - 1], s[|s| - 1], e);
    DerivesAtSet(g.rules, s[|s| - 1], e);
    assert forall k: nat :: k <= |e| ==> e[..k] == e;
  }

  lemma CompleteStack(g: Grammar, stacks: seq<Stack>)
    requires IsState(g, stacks)
    ensures [] in stacks <==> StateDerives(g.rules, stacks, [])
  {
    var e: seq<nat> := [];
    if [] in stacks {
      var i :| 0 <= i < |stacks| && stacks[i] == [];
      assert StackDerives(g.rules, stacks[i], e);
    }
    if StateDerives(g.rules, stacks, e) {
      var i :| 0 <= i < |stacks| && StackDerives(g.rules, stacks[i], e);
      if stacks[i] != [] {
        WaitingNeedsInput(g, stacks[i]);
      }
    }
  }

  /**
   * Exactness. After the code points `w`, the automaton's stacks derive exactly the strings that
   * complete `w` to a string of the grammar; it may stop exactly if `w` is one; and if no stack is
   * left, nothing completes `w`.
   */
  lemma Exactness(g: Grammar, w: seq<nat>)
    requires Valid(g)
    ensures IsState(g, Start(g))
    ensures forall v :: StateDerives(g.rules, AcceptAll(g, Start(g), w), v) <==> InLanguage(g, w + v)
    ensures [] in AcceptAll(g, Start(g), w) <==> InLanguage(g, w)
    ensures AcceptAll(g, Start(g), w) == [] ==> forall v :: !InLanguage(g, w + v)
  {
    StartIsState(g);
    forall v ensures StateDerives(g.rules, AcceptAll(g, Start(g), w), v) <==> InLanguage(g, w + v) {
      AcceptAllDerives(g, Start(g), w, v);
      StartDerives(g, w + v);
    }
    assert w + [] == w;
    CompleteStack(g, AcceptAll(g, Start(g), w));
  }

  // ---- the methods ------------------------------------------------------------------------------

  lemma AdvanceCases(g: Grammar, s: Stack, out: seq<Stack>)
    requires Valid(g) && OnSymbols(g, s)
    ensures Waits(g, s) ==> Advance(g, s, out) == AddNew(out, s)
    ensures !Waits(g, s) ==>
      var base, p := s[..|s| - 1], s[|s| - 1];
      && Elem(g.rules, p).kind == RuleRef && Elem(g.rules, p).value < |g.rules|
      && StartsAlternate(g.rules[Elem(g.rules, p).value], 0) && OnSymbols(g, base + [p])
      && Advance(g, s, out) == AdvanceAlternates(g, base, p, 0, out)
  {
    if !Waits(g, s) {
      var p := s[|s| - 1];
      PlaceAfter(g.rules, p);
      assert WellFormedRule(g.rules[Elem(g.rules, p).value], |g.rules|);
      assert s[..|s| - 1] + [p] == s;
    }
  }

  lemma AlternatesCases(g: Grammar, base: Stack, p: Pos, a: nat, out: seq<Stack>)
    requires Valid(g) && OnSymbols(g, base) && IsPlace(g.rules, p) && Elem(g.rules, p).kind == RuleRef
    requires Elem(g.rules, p).value < |g.rules| && StartsAlternate(g.rules[Elem(g.rules, p).value], a)
    requires OnSymbols(g, base + [p])
    ensures var next, out1 := NextAlternate(g, Elem(g.rules, p).value, a), Advance(g, Expand(g, base, p, a), out);
      AdvanceAlternates(g, base, p, a, out)
      == if next.Some? then AdvanceAlternates(g, base, p, next.value, out1) else out1
  {
    hide LeftLoad;
    hide StackLoad;
    hide Advance;
    hide Expand;
    hide NextAlternate;
    ExpandLowersLoad(g, base, p, a);
  }

  lemma NextAlternateIs(g: Grammar, id: nat, a: nat)
    requires Valid(g) && id < |g.rules| && StartsAlternate(g.rules[id], a)
    ensures var r := g.rules[id];
      && a < |r| && r[|r| - 1].kind == End
      && NextAlternate(g, id, a) == if r[AlternateEnd(r, a)].kind == Alt then Some(AlternateEnd(r, a) + 1) else None
  {
    AlternateEnds(g, id, a);
  }

  method AdvanceStack(g: Grammar, stack: Stack, out0: seq<Stack>) returns (out: seq<Stack>)
    requires Valid(g) && OnSymbols(g, stack)
    ensures out == Advance(g, stack, out0)
    decreases StackLoad(g, stack)
  {
    hide LeftLoad;
    hide StackLoad;
    hide Derives;
    hide NullablePlace;
    hide Advance;
    hide AdvanceAlternates;
    hide NextAlternate;
    AdvanceCases(g, stack, out0);
    out := out0;
    if stack == [] {
      if stack !in out {
        out := out + [stack];
      }
      return;
    }
    var pos := stack[|stack| - 1];
    var base := stack[..|stack| - 1];
    match Elem(g.rules, pos).kind {
      case RuleRef =>
        PlaceAfter(g.rules, pos);
        var id := Elem(g.rules, pos).value;
        var r := g.rules[id];
        AlternateIsPlace(g.rules, id, 0);
        assert WellFormedRule(r, |g.rules|);
        assert base + [pos] == stack;
        var sub := 0;
        while true
          invariant StartsAlternate(r, sub)
          invariant Advance(g, stack, out0) == AdvanceAlternates(g, base, pos, sub, out)
          decreases |r| - sub
        {
          ExpandLowersLoad(g, base, pos, sub);
          AlternatesCases(g, base, pos, sub, out);
          NextAlternateIs(g, id, sub);
          var ns := base;
          if !IsEnd(Elem(g.rules, Next(pos))) {
            ns := ns + [Next(pos)];
          }
          if !IsEnd(r[sub]) {
            ns := ns + [Pos(id, sub)];
          }
          assert ns == Expand(g, base, pos, sub);
          out := AdvanceStack(g, ns, out);
          ghost var a := sub;
          while !IsEnd(r[sub])
            invariant a <= sub < |r| && AlternateEnd(r, sub) == AlternateEnd(r, a)
            decreases |r| - sub
          {
            sub := sub + 1;
          }
          if r[sub].kind == Alt {
            sub := sub + 1;
          } else {
            break;
          }
        }
      case Char =>
        if stack !in out {
          out := out + [stack];
        }
      case CharNot =>
        if stack !in out {
          out := out + [stack];
        }
      case _ =>
    }
  }

  method AcceptChar(g: Grammar, stacks: seq<Stack>, chr: nat) returns (out: seq<Stack>)
    requires Valid(g) && IsState(g, stacks)
    ensures out == Accept(g, stacks, chr)
  {
    out := [];
    for i := 0 to |stacks|
      invariant out == Accept(g, stacks[..i], chr)
    {
      var stack := stacks[i];
      assert stacks[..i + 1][..i] == stacks[..i];
      if stack != [] {
        var pos := stack[|stack| - 1];
        assert WellFormedRule(g.rules[pos.rule], |g.rules|);
        var matched, next := MatchChar(g.rules[pos.rule], pos.at, chr, |g.rules|);
        if matched {
          PlaceAfter(g.rules, pos);
          var ns := stack[..|stack| - 1];
          PushLoad(g, ns, Pos(pos.rule, next));
          if !IsEnd(g.rules[pos.rule][next]) {
            ns := ns + [Pos(pos.rule, next)];
          }
          out := AdvanceStack(g, ns, out);
        }
      }
    }
    assert stacks[..|stacks|] == stacks;
  }

  lemma StartFromStep(g: Grammar, a: nat, out: seq<Stack>)
    requires Valid(g) && StartsAlternate(g.rules[g.root], a)
    ensures IsPlace(g.rules, Pos(g.root, a)) && OnSymbols(g, Push(g, [], Pos(g.root, a)))
    ensures a < |g.rules[g.root]| && g.rules[g.root][|g.rules[g.root]| - 1].kind == End
    ensures var next, out1 := NextAlternate(g, g.root, a), Advance(g, Push(g, [], Pos(g.root, a)), out);
      StartFrom(g, a, out) == if next.Some? then StartFrom(g, next.value, out1) else out1
  {
    hide Advance;
    hide StackLoad;
    hide LeftLoad;
    hide NextAlternate;
    AlternateIsPlace(g.rules, g.root, a);
    PushLoad(g, [], Pos(g.root, a));
    NextAlternateIs(g, g.root, a);
  }

  method StartState(g: Grammar) returns (stacks: seq<Stack>)
    requires Valid(g)
    ensures stacks == Start(g)
  {
    hide LeftLoad;
    hide StackLoad;
    hide Derives;
    hide NullablePlace;
    hide Advance;
    hide StartFrom;
    hide NextAlternate;
    stacks := [];
    var r := g.rules[g.root];
    assert WellFormedRule(r, |g.rules|);
    var pos := 0;
    AlternateIsPlace(g.rules, g.root, 0);
    while true
      invariant StartsAlternate(r, pos)
      invariant Start(g) == StartFrom(g, pos, stacks)
      decreases |r| - pos
    {
      AlternateIsPlace(g.rules, g.root, pos);
      PushLoad(g, [], Pos(g.root, pos));
      StartFromStep(g, pos, stacks);
      NextAlternateIs(g, g.root, pos);
      var stack: Stack := [];
      if !IsEnd(r[pos]) {
        stack := [Pos(g.root, pos)];
      }
      assert stack == Push(g, [], Pos(g.root, pos));
      stacks := AdvanceStack(g, stack, stacks);
      ghost var a := pos;
      while !IsEnd(r[pos])
        invariant a <= pos < |r| && AlternateEnd(r, pos) == AlternateEnd(r, a)
        decreases |r| - pos
      {
        pos := pos + 1;
      }
      if r[pos].kind == Alt {
        pos := pos + 1;
      } else {
        break;
      }
    }
  }

  /** Whether the input may end here. */
  method Complete(g: Grammar, stacks: seq<Stack>) returns (r: bool)
    requires Valid(g) && IsState(g, stacks)
    ensures r <==> StateDerives(g.rules, stacks, [])
  {
    CompleteStack(g, stacks);
    r := false;
    for i := 0 to |stacks|
      invariant r <==> [] in stacks[..i]
    {
      r := r || stacks[i] == [];
    }
  }
}
