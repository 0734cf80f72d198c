/** Repetition operators: the generated rule derives what `*`, `+` and `?` promise of the symbol. */
module GrammarRepetition {
  import opened Results
  import opened Arith
  import opened GrammarRules

  datatype Operator = Star | Plus | Optional

  /** Collapses the symbol from `lastSymStart` on into a reference to a new rule. */
  method ParseRepetition(out: Rule, lastSymStart: nat, op: Operator, subId: nat) returns (r: Option<(Rule, Rule)>)
    requires lastSymStart <= |out|
    ensures r.None? <==> lastSymStart == |out|
    ensures r.Some? ==>
      && r.value.0 == RepetitionRule(out[lastSymStart..], op, subId)
      && r.value.1 == out[..lastSymStart] + [Element(RuleRef, subId)]
  {
    if lastSymStart == |out| {
      return None;
    }
    var sub := out[lastSymStart..];
    if op == Star || op == Plus {
      sub := sub + [Element(RuleRef, subId)];
    }
    sub := sub + [Element(Alt, 0)];
    if op == Plus {
      sub := sub + out[lastSymStart..];
    }
    sub := sub + [Element(End, 0)];
    r := Some((sub, out[..lastSymStart] + [Element(RuleRef, subId)]));
  }

  function Tail(sym: Rule, op: Operator): Rule {
    if op == Plus then sym else []
  }

  function RepetitionRule(sym: Rule, op: Operator, id: nat): Rule {
    sym + (if op == Optional then [] else [Element(RuleRef, id)]) + [Element(Alt, 0)] + Tail(sym, op) + [Element(End, 0)]
  }

  /** A run of references and complete sets. */
  ghost predicate IsSymbol(sym: Rule) {
    && sym != [] && !ContinuesSet(sym[0])
    && forall i :: 0 <= i < |sym| ==> !IsEnd(sym[i])
  }

  /** The symbol derives `w`, from its element `i` on. */
  ghost predicate SymDerives(rules: Rules, sym: Rule, i: nat, w: seq<nat>)
    decreases |sym| - i
  {
    if i >= |sym| then w == []
    else if OpensSet(sym[i]) then
      w != [] && Accepts(sym, i, w[0]) && SymDerives(rules, sym, AfterSet(sym, i), w[1..])
    else
      && sym[i].kind == RuleRef && sym[i].value < |rules|
      && exists k: nat :: k <= |w| && RuleDerives(rules, sym[i].value, w[..k]) && SymDerives(rules, sym, i + 1, w[k..])
  }

  /** The symbol stands at index `b` of rule `id`, and something else follows it. */
  ghost predicate Holds(rules: Rules, id: nat, b: nat, sym: Rule) {
    && WellFormed(rules) && id < |rules| && IsSymbol(sym)
    && b + |sym| < |rules[id]| && rules[id][b..b + |sym|] == sym && !ContinuesSet(rules[id][b + |sym|])
  }

  lemma ElementOf(rules: Rules, id: nat, b: nat, sym: Rule, i: nat)
    requires Holds(rules, id, b, sym) && i < |sym|
    ensures rules[id][b + i] == sym[i]
  {
    assert rules[id][b..b + |sym|][i] == rules[id][b + i];
  }

  lemma {:induction false} SetShifts(rules: Rules, id: nat, b: nat, sym: Rule, i: nat, c: nat)
    requires Holds(rules, id, b, sym) && i < |sym| && (OpensSet(sym[i]) || sym[i].kind == CharAlt)
    ensures Covers(rules[id], b + i, c) <==> Covers(sym, i, c)
    ensures AfterSet(rules[id], b + i) == b + AfterSet(sym, i)
    ensures AfterSet(sym, i) <= |sym|
    ensures AfterSet(sym, i) < |sym| ==> !ContinuesSet(sym[AfterSet(sym, i)])
    decreases |sym| - i
  {
    hide IsSymbol;
    var r := rules[id];
    assert WellFormedRule(r, |rules|);
    ElementOf(rules, id, b, sym, i);
    if i + 1 < |sym| {
      ElementOf(rules, id, b, sym, i + 1);
    }
    hide WellFormedRule;
    var n := NextMember(sym, i);
    assert NextMember(r, b + i) == b + n;
    if n < |sym| {
      ElementOf(rules, id, b, sym, n);
      if sym[n].kind == CharAlt {
        SetShifts(rules, id, b, sym, n, c);
      }
    }
  }

  ghost function Size(t: Parse): nat {
    match t
    case Done => 1
    case Eat(rest) => 1 + Size(rest)
    case Call(_, _, sub, rest) => 1 + Size(sub) + Size(rest)
  }

  lemma SymbolStep(rules: Rules, id: nat, b: nat, sym: Rule, i: nat)
    requires Holds(rules, id, b, sym) && i < |sym| && !ContinuesSet(sym[i])
    ensures WellFormed(rules) && id < |rules| && b + i < |rules[id]| && rules[id][b + i] == sym[i]
    ensures OpensSet(sym[i]) || (sym[i].kind == RuleRef && sym[i].value < |rules|)
    ensures sym[i].kind == RuleRef && i + 1 < |sym| ==> !ContinuesSet(sym[i + 1])
  {
    assert WellFormedRule(rules[id], |rules|);
    ElementOf(rules, id, b, sym, i);
    if i + 1 < |sym| {
      ElementOf(rules, id, b, sym, i + 1);
    }
  }

  lemma SubParseDerives(rules: Rules, id: nat, a: nat, t: Parse, w: seq<nat>)
    requires id < |rules| && StartsAlternate(rules[id], a) && IsParse(rules, Pos(id, a), t, w)
    ensures RuleDerives(rules, id, w)
  {
    assert Derives(rules, Pos(id, a), w);
  }

  /** A derivation through the symbol goes on behind it with a derivation that is no larger. */
  lemma {:induction false} ParseSplits(rules: Rules, id: nat, b: nat, sym: Rule, i: nat, t: Parse, w: seq<nat>)
    returns (k: nat, t': Parse)
    requires Holds(rules, id, b, sym) && i <= |sym| && (i < |sym| ==> !ContinuesSet(sym[i]))
    requires IsParse(rules, Pos(id, b + i), t, w)
    ensures k <= |w| && SymDerives(rules, sym, i, w[..k])
    ensures IsParse(rules, Pos(id, b + |sym|), t', w[k..]) && Size(t') <= Size(t)
    decreases |sym| - i
  {
    hide Covers;
    hide AfterSet;
    hide Derives;
    hide Holds;
    hide RuleDerives;
    if i == |sym| {
      k, t' := 0, t;
      assert w[0..] == w;
    } else {
      SymbolStep(rules, id, b, sym, i);
      if OpensSet(sym[i]) {
        SetShifts(rules, id, b, sym, i, w[0]);
        var j;
        j, t' := ParseSplits(rules, id, b, sym, AfterSet(sym, i), t.rest, w[1..]);
        k := j + 1;
        assert w[..k][1..] == w[1..][..j] && w[1..][j..] == w[k..];
      } else {
        var j;
        j, t' := ParseSplits(rules, id, b, sym, i + 1, t.rest, w[t.k..]);
        k := t.k + j;
        assert w[..k][..t.k] == w[..t.k] && w[..k][t.k..] == w[t.k..][..j] && w[t.k..][j..] == w[k..];
        SubParseDerives(rules, sym[i].value, t.alt, t.sub, w[..t.k]);
      }
    }
  }

  lemma {:induction false} ParseJoins(rules: Rules, id: nat, b: nat, sym: Rule, i: nat, w: seq<nat>, k: nat)
    requires Holds(rules, id, b, sym) && i <= |sym| && (i < |sym| ==> !ContinuesSet(sym[i]))
    requires k <= |w| && SymDerives(rules, sym, i, w[..k]) && Derives(rules, Pos(id, b + |sym|), w[k..])
    ensures Derives(rules, Pos(id, b + i), w)
    decreases |sym| - i
  {
    hide Covers;
    hide AfterSet;
    hide Derives;
    hide RuleDerives;
    hide Holds;
    if i == |sym| {
      assert w[k..] == w;
    } else {
      SymbolStep(rules, id, b, sym, i);
      var p := Pos(id, b + i);
      if OpensSet(sym[i]) {
        SetShifts(rules, id, b, sym, i, w[0]);
        CutAgain(w, 1, k);
        ParseJoins(rules, id, b, sym, AfterSet(sym, i), w[1..], k - 1);
        DerivesAtSet(rules, p, w);
      } else {
        var j: nat :| j <= k && RuleDerives(rules, sym[i].value, w[..k][..j]) && SymDerives(rules, sym, i + 1, w[..k][j..]);
        CutAgain(w, j, k);
        ParseJoins(rules, id, b, sym, i + 1, w[j..], k - j);
        assert CallSplits(rules, sym[i].value, Next(p), w, j);
        DerivesAtRef(rules, p, w);
      }
    }
  }

  lemma CutAgain(w: seq<nat>, j: nat, k: nat)
    requires j <= k <= |w|
    ensures w[..k][..j] == w[..j] && w[..k][j..] == w[j..][..k - j] && w[j..][k - j..] == w[k..]
  {
  }

  function Concat(ws: seq<seq<nat>>): seq<nat> {
    if ws == [] then [] else ws[0] + Concat(ws[1..])
  }

  /** `w` is made of words of the symbol, as many as the operator allows. */
  ghost predicate Repeats(rules: Rules, sym: Rule, op: Operator, w: seq<nat>) {
    exists ws :: Concat(ws) == w && CountAllowed(op, |ws|) && forall i :: 0 <= i < |ws| ==> SymDerives(rules, sym, 0, ws[i])
  }

  predicate CountAllowed(op: Operator, n: nat) {
    match op
    case Star => true
    case Plus => n > 0
    case Optional => n <= 1
  }

  /** Rule `id` is the one generated for the symbol. */
  ghost predicate Generated(rules: Rules, id: nat, sym: Rule, op: Operator) {
    WellFormed(rules) && id < |rules| && IsSymbol(sym) && rules[id] == RepetitionRule(sym, op, id)
  }

  /** The layout of the generated rule: the symbol, the reference to itself, the second alternate. */
  lemma Layout(rules: Rules, id: nat, sym: Rule, op: Operator)
    requires Generated(rules, id, sym, op)
    ensures Holds(rules, id, 0, sym)
    ensures var n := |sym|; var r := rules[id]; var m := if op == Optional then n + 1 else n + 2;
      && (op != Optional ==> r[n] == Element(RuleRef, id) && r[n + 1].kind == Alt)
      && (op == Optional ==> r[n].kind == Alt)
      && (forall a: nat :: StartsAlternate(r, a) <==> a == 0 || a == m)
      && (op == Plus ==> Holds(rules, id, m, sym) && r[m + n].kind == End)
      && (op != Plus ==> m < |r| && r[m].kind == End)
  {
    var n, r := |sym|, rules[id];
    assert WellFormedRule(r, |rules|);
    assert r[0..n] == sym;
    var m := if op == Optional then n + 1 else n + 2;
    assert op == Plus ==> r[m..m + n] == sym;
  }

  /** Behind the symbol in the first alternate: once more the rule itself, or the end. */
  lemma Behind(rules: Rules, id: nat, sym: Rule, op: Operator, w: seq<nat>)
    requires Generated(rules, id, sym, op)
    ensures |sym| < |rules[id]| && IsPlace(rules, Pos(id, |sym|))
    ensures op != Optional ==> (Derives(rules, Pos(id, |sym|), w) <==> RuleDerives(rules, id, w))
    ensures op == Optional ==> (Derives(rules, Pos(id, |sym|), w) <==> w == [])
  {
    Layout(rules, id, sym, op);
    var p := Pos(id, |sym|);
    if op == Optional {
      DerivesAtEnd(rules, p, w);
    } else {
      DerivesAtRef(rules, p, w);
      forall k: nat | k <= |w| ensures Derives(rules, Next(p), w[k..]) <==> k == |w| {
        DerivesAtEnd(rules, Next(p), w[k..]);
      }
      assert w[..|w|] == w;
      if RuleDerives(rules, id, w) {
        assert CallSplits(rules, id, Next(p), w, |w|);
      }
    }
  }

  lemma OneMore(rules: Rules, sym: Rule, op: Operator, u: seq<nat>, v: seq<nat>)
    requires op != Optional && SymDerives(rules, sym, 0, u) && Repeats(rules, sym, op, v)
    ensures Repeats(rules, sym, op, u + v)
  {
    var ws :| Concat(ws) == v && CountAllowed(op, |ws|) && forall i :: 0 <= i < |ws| ==> SymDerives(rules, sym, 0, ws[i]);
    assert ([u] + ws)[1..] == ws;
    assert Concat([u] + ws) == u + v;
  }

  lemma NoWords(rules: Rules, sym: Rule, op: Operator)
    requires op != Plus
    ensures Repeats(rules, sym, op, [])
  {
    assert Concat([]) == [];
  }

  lemma JustOne(rules: Rules, sym: Rule, op: Operator, w: seq<nat>)
    requires SymDerives(rules, sym, 0, w)
    ensures Repeats(rules, sym, op, w)
  {
    assert [w][1..] == [] && w + [] == w;
    assert Concat([w]) == w;
  }

  lemma {:induction false} ParseRepeats(rules: Rules, id: nat, sym: Rule, op: Operator, a: nat, t: Parse, w: seq<nat>)
    requires Generated(rules, id, sym, op) && StartsAlternate(rules[id], a) && IsParse(rules, Pos(id, a), t, w)
    ensures Repeats(rules, sym, op, w)
    decreases Size(t)
  {
    hide SymDerives;
    hide RepetitionRule;
    hide WellFormed;
    hide Repeats;
    hide IsParse;
    Layout(rules, id, sym, op);
    if a == 0 {
      var k, t' := ParseSplits(rules, id, 0, sym, 0, t, w);
      assert w == w[..k] + w[k..];
      if op == Optional {
        EndParse(rules, id, |sym|, t', w[k..]);
        assert w[..k] == w;
        JustOne(rules, sym, op, w);
      } else {
        SelfParse(rules, id, |sym|, t', w[k..]);
        ParseRepeats(rules, id, sym, op, t'.alt, t'.sub, w[k..]);
        OneMore(rules, sym, op, w[..k], w[k..]);
      }
    } else if op == Plus {
      var k, t' := ParseSplits(rules, id, a, sym, 0, t, w);
      EndParse(rules, id, a + |sym|, t', w[k..]);
      assert w[..k] == w;
      JustOne(rules, sym, op, w);
    } else {
      EndParse(rules, id, a, t, w);
      NoWords(rules, sym, op);
    }
  }

  /** At the end of an alternate only the empty word is left. */
  lemma EndParse(rules: Rules, id: nat, i: nat, t: Parse, w: seq<nat>)
    requires id < |rules| && i < |rules[id]| && IsEnd(rules[id][i]) && IsParse(rules, Pos(id, i), t, w)
    ensures w == []
  {
  }

  /** A rule that ends in a reference to itself goes on with a smaller derivation of its own. */
  lemma SelfParse(rules: Rules, id: nat, i: nat, t: Parse, w: seq<nat>)
    requires id < |rules| && i + 1 < |rules[id]| && rules[id][i] == Element(RuleRef, id) && IsEnd(rules[id][i + 1])
    requires IsParse(rules, Pos(id, i), t, w)
    ensures t.Call? && StartsAlternate(rules[id], t.alt) && IsParse(rules, Pos(id, t.alt), t.sub, w)
    ensures Size(t.sub) < Size(t)
  {
    EndParse(rules, id, i + 1, t.rest, w[t.k..]);
    assert w[..t.k] == w;
  }

  lemma SymbolAlone(rules: Rules, id: nat, b: nat, sym: Rule, w: seq<nat>)
    requires Holds(rules, id, b, sym) && IsEnd(rules[id][b + |sym|])
    requires SymDerives(rules, sym, 0, w)
    ensures Derives(rules, Pos(id, b), w)
  {
    assert w[..|w|] == w && w[|w|..] == [];
    DerivesAtEnd(rules, Pos(id, b + |sym|), w[|w|..]);
    ParseJoins(rules, id, b, sym, 0, w, |w|);
  }

  lemma {:induction false} WordsDerive(rules: Rules, id: nat, sym: Rule, op: Operator, ws: seq<seq<nat>>)
    requires Generated(rules, id, sym, op) && CountAllowed(op, |ws|)
    requires forall i :: 0 <= i < |ws| ==> SymDerives(rules, sym, 0, ws[i])
    ensures RuleDerives(rules, id, Concat(ws))
    decreases |ws|
  {
    hide Derives;
    hide RuleDerives;
    hide SymDerives;
    Layout(rules, id, sym, op);
    var m := if op == Optional then |sym| + 1 else |sym| + 2;
    if ws == [] {
      DerivesAtEnd(rules, Pos(id, m), []);
      AlternateDerives(rules, id, m, []);
    } else if |ws| == 1 && op != Star {
      assert ws[0] + [] == ws[0];
      assert ws[1..] == [];
      var b := if op == Plus then m else 0;
      SymbolAlone(rules, id, b, sym, ws[0]);
      AlternateDerives(rules, id, b, ws[0]);
    } else {
      var u, v := ws[0], Concat(ws[1..]);
      WordsDerive(rules, id, sym, op, ws[1..]);
      Behind(rules, id, sym, op, v);
      assert (u + v)[..|u|] == u && (u + v)[|u|..] == v;
      ParseJoins(rules, id, 0, sym, 0, u + v, |u|);
      AlternateDerives(rules, id, 0, u + v);
    }
  }

  lemma AlternateDerives(rules: Rules, id: nat, a: nat, w: seq<nat>)
    requires id < |rules| && StartsAlternate(rules[id], a) && Derives(rules, Pos(id, a), w)
    ensures RuleDerives(rules, id, w)
  {
  }

  /** The generated rule derives exactly the words the operator promises. */
  lemma RepetitionIsExact(rules: Rules, id: nat, sym: Rule, op: Operator, w: seq<nat>)
    requires Generated(rules, id, sym, op)
    ensures RuleDerives(rules, id, w) <==> exists ws :: (
      && Concat(ws) == w && (op == Plus ==> |ws| >= 1) && (op == Optional ==> |ws| <= 1)
      && forall i :: 0 <= i < |ws| ==> SymDerives(rules, sym, 0, ws[i]))
  {
    if RuleDerives(rules, id, w) {
      var a: nat :| StartsAlternate(rules[id], a) && Derives(rules, Pos(id, a), w);
      var t :| IsParse(rules, Pos(id, a), t, w);
      ParseRepeats(rules, id, sym, op, a, t, w);
    }
    if ws :| Concat(ws) == w && CountAllowed(op, |ws|) && forall i :: 0 <= i < |ws| ==> SymDerives(rules, sym, 0, ws[i]) {
      WordsDerive(rules, id, sym, op, ws);
    }
  }
}
