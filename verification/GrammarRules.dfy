/**
 * Grammar rules as flat element sequences, and the language they derive.
 *
 * A rule holds its alternates one after the other, separated by `Alt` and closed by `End`. A
 * pointer into a rule is a rule number and an index.
 */
module GrammarRules {

  datatype ElemType = End | Alt | RuleRef | Char | CharNot | RngUpper | CharAlt

  datatype Element = Element(kind: ElemType, value: nat)

  type Rule = seq<Element>
  type Rules = seq<Rule>

  datatype Pos = Pos(rule: nat, at: nat)

  predicate IsEnd(e: Element) {
    e.kind == End || e.kind == Alt
  }

  predicate OpensSet(e: Element) {
    e.kind == Char || e.kind == CharNot
  }

  predicate ContinuesSet(e: Element) {
    e.kind == RngUpper || e.kind == CharAlt
  }

  /** What the text parser produces: one `End`, at the end, and set continuations only inside sets. */
  ghost predicate WellFormedRule(r: Rule, n: nat) {
    && r != []
    && (forall i :: 0 <= i < |r| ==> (r[i].kind == End <==> i == |r| - 1))
    && (forall i :: 0 <= i < |r| && r[i].kind == RuleRef ==> r[i].value < n)
    && (forall i :: 0 <= i < |r| && r[i].kind == RngUpper ==> i > 0 && (OpensSet(r[i - 1]) || r[i - 1].kind == CharAlt))
    && (forall i :: 0 <= i < |r| && r[i].kind == CharAlt ==> i > 0 && (OpensSet(r[i - 1]) || ContinuesSet(r[i - 1])))
  }

  ghost predicate WellFormed(rules: Rules) {
    forall id :: 0 <= id < |rules| ==> WellFormedRule(rules[id], |rules|)
  }

  /** The element after the set member at `i`: a range takes two elements. */
  function NextMember(r: Rule, i: nat): nat {
    if i + 1 < |r| && r[i + 1].kind == RngUpper then i + 2 else i + 1
  }

  /** The element after the set opening at `i`. */
  function AfterSet(r: Rule, i: nat): (j: nat)
    ensures i < j
    decreases |r| - i
  {
    var n := NextMember(r, i);
    if n < |r| && r[n].kind == CharAlt then AfterSet(r, n) else n
  }

  /** Whether some member of the set from `i` on covers `c`. */
  predicate Covers(r: Rule, i: nat, c: nat)
    requires i < |r|
    decreases |r| - i
  {
    var n := NextMember(r, i);
    || (if i + 1 < |r| && r[i + 1].kind == RngUpper then r[i].value <= c <= r[i + 1].value else r[i].value == c)
    || (n < |r| && r[n].kind == CharAlt && Covers(r, n, c))
  }

  /** Whether the set opening at `i` accepts `c`. */
  predicate Accepts(r: Rule, i: nat, c: nat)
    requires i < |r|
  {
    Covers(r, i, c) == (r[i].kind == Char)
  }

  lemma {:induction false} AfterSetIsBoundary(r: Rule, i: nat, n: nat)
    requires WellFormedRule(r, n) && i < |r|
    requires OpensSet(r[i]) || r[i].kind == CharAlt
    ensures AfterSet(r, i) < |r| && !ContinuesSet(r[AfterSet(r, i)])
    decreases |r| - i
  {
    var m := NextMember(r, i);
    if r[m].kind == CharAlt {
      AfterSetIsBoundary(r, m, n);
    }
  }

  /** What a set holds: its single values and the ranges of those followed by an upper bound. */
  lemma {:induction false} MembersCover(r: Rule, i: nat, c: nat, n: nat)
    requires WellFormedRule(r, n) && i < |r|
    requires OpensSet(r[i]) || r[i].kind == CharAlt
    ensures AfterSet(r, i) < |r| && !ContinuesSet(r[AfterSet(r, i)])
    ensures forall j :: i < j < AfterSet(r, i) ==> ContinuesSet(r[j])
    ensures Covers(r, i, c) <==> exists j :: (
      && i <= j < AfterSet(r, i) && r[j].kind != RngUpper
      && if r[j + 1].kind == RngUpper then r[j].value <= c <= r[j + 1].value else r[j].value == c)
    decreases |r| - i
  {
    var m := NextMember(r, i);
    assert r[i + 1].kind == RngUpper ==> r[i + 2].kind != RngUpper;
    if r[m].kind == CharAlt {
      MembersCover(r, m, c, n);
    }
  }

  /** A positive set accepts its members, a negated one all others. */
  lemma AcceptsIs(r: Rule, i: nat, c: nat, n: nat)
    requires WellFormedRule(r, n) && i < |r| && OpensSet(r[i])
    ensures AfterSet(r, i) < |r|
    ensures Accepts(r, i, c) <==> (r[i].kind == Char
      <==> exists j :: (
        && i <= j < AfterSet(r, i) && r[j].kind != RngUpper
        && if r[j + 1].kind == RngUpper then r[j].value <= c <= r[j + 1].value else r[j].value == c))
  {
    MembersCover(r, i, c, n);
  }

  /** Reads the set at `i` element by element, as the automaton does. */
  method MatchChar(r: Rule, i: nat, c: nat, ghost n: nat) returns (matched: bool, next: nat)
    requires WellFormedRule(r, n) && i < |r| && OpensSet(r[i])
    ensures matched == Accepts(r, i, c) && next == AfterSet(r, i)
  {
    var found := false;
    next := i;
    while true
      invariant i <= next < |r| && (OpensSet(r[next]) || r[next].kind == CharAlt)
      invariant Covers(r, i, c) <==> found || Covers(r, next, c)
      invariant AfterSet(r, i) == AfterSet(r, next)
      decreases |r| - next
    {
      if r[next + 1].kind == RngUpper {
        found := found || (r[next].value <= c <= r[next + 1].value);
        next := next + 2;
      } else {
        found := found || r[next].value == c;
        next := next + 1;
      }
      if r[next].kind != CharAlt {
        break;
      }
    }
    matched := found == (r[i].kind == Char);
  }

  /** Skips one symbol: a reference, or a set with its continuations. */
  method SkipSymbol(r: Rule, i: nat, ghost n: nat) returns (next: nat)
    requires WellFormedRule(r, n) && i < |r| && !IsEnd(r[i]) && !ContinuesSet(r[i])
    ensures next == if OpensSet(r[i]) then AfterSet(r, i) else i + 1
  {
    if r[i].kind != Char && r[i].kind != CharNot {
      return i + 1;
    }
    next := i;
    while true
      invariant i <= next < |r| && (OpensSet(r[next]) || r[next].kind == CharAlt)
      invariant AfterSet(r, i) == AfterSet(r, next)
      decreases |r| - next
    {
      next := if r[next + 1].kind == RngUpper then next + 2 else next + 1;
      if r[next].kind != CharAlt {
        break;
      }
    }
  }

  // ---- derivations ------------------------------------------------------------------------

  /** A derivation from a place inside an alternate to the alternate's end. */
  datatype Parse =
    | Done
    | Eat(rest: Parse)
    | Call(alt: nat, k: nat, sub: Parse, rest: Parse)

  predicate StartsAlternate(r: Rule, a: nat) {
    a < |r| && (a == 0 || r[a - 1].kind == Alt)
  }

  /** A place where a symbol starts or an alternate ends. */
  ghost predicate IsPlace(rules: Rules, p: Pos) {
    p.rule < |rules| && p.at < |rules[p.rule]| && !ContinuesSet(rules[p.rule][p.at])
  }

  function Elem(rules: Rules, p: Pos): Element
    requires p.rule < |rules| && p.at < |rules[p.rule]|
  {
    rules[p.rule][p.at]
  }

  function Next(p: Pos): Pos {
    Pos(p.rule, p.at + 1)
  }

  function PastSet(rules: Rules, p: Pos): Pos
    requires p.rule < |rules|
  {
    Pos(p.rule, AfterSet(rules[p.rule], p.at))
  }

  /** `t` derives exactly `w` from `p` to the end of its alternate. */
  ghost predicate IsParse(rules: Rules, p: Pos, t: Parse, w: seq<nat>)
    decreases t
  {
    && p.rule < |rules| && p.at < |rules[p.rule]|
    && match t
       case Done => IsEnd(Elem(rules, p)) && w == []
       case Eat(rest) =>
         && OpensSet(Elem(rules, p))
         && w != [] && Accepts(rules[p.rule], p.at, w[0])
         && IsParse(rules, PastSet(rules, p), rest, w[1..])
       case Call(alt, k, sub, rest) =>
         && Elem(rules, p).kind == RuleRef
         && var id := Elem(rules, p).value;
         && id < |rules| && StartsAlternate(rules[id], alt)
         && k <= |w|
         && IsParse(rules, Pos(id, alt), sub, w[..k])
         && IsParse(rules, Next(p), rest, w[k..])
  }

  ghost predicate Derives(rules: Rules, p: Pos, w: seq<nat>) {
    exists t :: IsParse(rules, p, t, w)
  }

  ghost predicate RuleDerives(rules: Rules, id: nat, w: seq<nat>)
    requires id < |rules|
  {
    exists alt: nat :: StartsAlternate(rules[id], alt) && Derives(rules, Pos(id, alt), w)
  }

  /** The language of a rule is that of its alternates, which start at its front and after every separator. */
  lemma RuleDerivesIs(rules: Rules, id: nat, w: seq<nat>)
    requires id < |rules|
    ensures RuleDerives(rules, id, w) <==>
      exists a: nat :: a < |rules[id]| && (a == 0 || rules[id][a - 1].kind == Alt) && Derives(rules, Pos(id, a), w)
  {
    if RuleDerives(rules, id, w) {
      var a: nat :| StartsAlternate(rules[id], a) && Derives(rules, Pos(id, a), w);
    }
    if a: nat :| a < |rules[id]| && (a == 0 || rules[id][a - 1].kind == Alt) && Derives(rules, Pos(id, a), w) {
      assert StartsAlternate(rules[id], a);
    }
  }

  lemma PlaceAfter(rules: Rules, p: Pos)
    requires WellFormed(rules) && IsPlace(rules, p) && !IsEnd(Elem(rules, p))
    ensures Elem(rules, p).kind == RuleRef ==> IsPlace(rules, Next(p)) && Elem(rules, p).value < |rules|
    ensures OpensSet(Elem(rules, p)) ==> IsPlace(rules, PastSet(rules, p))
  {
    assert WellFormedRule(rules[p.rule], |rules|);
    if OpensSet(Elem(rules, p)) {
      AfterSetIsBoundary(rules[p.rule], p.at, |rules|);
    }
  }

  lemma AlternateIsPlace(rules: Rules, id: nat, alt: nat)
    requires WellFormed(rules) && id < |rules| && StartsAlternate(rules[id], alt)
    ensures IsPlace(rules, Pos(id, alt))
  {
    assert WellFormedRule(rules[id], |rules|);
  }

  // ---- the three shapes of a place --------------------------------------------------------

  lemma DerivesAtEnd(rules: Rules, p: Pos, w: seq<nat>)
    requires IsPlace(rules, p) && IsEnd(Elem(rules, p))
    ensures Derives(rules, p, w) <==> w == []
  {
    if w == [] {
      assert IsParse(rules, p, Done, w);
    }
  }

  lemma DerivesAtSet(rules: Rules, p: Pos, w: seq<nat>)
    requires IsPlace(rules, p) && OpensSet(Elem(rules, p))
    ensures Derives(rules, p, w) <==>
      w != [] && Accepts(rules[p.rule], p.at, w[0]) && Derives(rules, PastSet(rules, p), w[1..])
  {
    if Derives(rules, p, w) {
      var t :| IsParse(rules, p, t, w);
      assert IsParse(rules, PastSet(rules, p), t.rest, w[1..]);
    }
    if w != [] && Accepts(rules[p.rule], p.at, w[0]) && Derives(rules, PastSet(rules, p), w[1..]) {
      var t :| IsParse(rules, PastSet(rules, p), t, w[1..]);
      assert IsParse(rules, p, Eat(t), w);
    }
  }

  /** `w` splits into a part the rule derives and a part the rest of the alternate derives. */
  ghost predicate CallSplits(rules: Rules, id: nat, next: Pos, w: seq<nat>, k: nat)
    requires id < |rules|
  {
    k <= |w| && RuleDerives(rules, id, w[..k]) && Derives(rules, next, w[k..])
  }

  lemma DerivesAtRef(rules: Rules, p: Pos, w: seq<nat>)
    requires WellFormed(rules) && IsPlace(rules, p) && Elem(rules, p).kind == RuleRef
    ensures Elem(rules, p).value < |rules|
    ensures Derives(rules, p, w) <==> exists k: nat :: CallSplits(rules, Elem(rules, p).value, Next(p), w, k)
  {
    PlaceAfter(rules, p);
    var id := Elem(rules, p).value;
    if Derives(rules, p, w) {
      var t :| IsParse(rules, p, t, w);
      assert IsParse(rules, Pos(id, t.alt), t.sub, w[..t.k]) && IsParse(rules, Next(p), t.rest, w[t.k..]);
      assert Derives(rules, Pos(id, t.alt), w[..t.k]);
      assert CallSplits(rules, id, Next(p), w, t.k);
    }
    if exists k: nat :: CallSplits(rules, id, Next(p), w, k) {
      var k: nat :| CallSplits(rules, id, Next(p), w, k);
      var alt: nat :| StartsAlternate(rules[id], alt) && Derives(rules, Pos(id, alt), w[..k]);
      var sub :| IsParse(rules, Pos(id, alt), sub, w[..k]);
      var rest :| IsParse(rules, Next(p), rest, w[k..]);
      assert IsParse(rules, p, Call(alt, k, sub, rest), w);
    }
  }
}
