/**
 * The matcher that masks logits during generation, the checks that end grammar parsing, and what
 * a run of masked tokens spells.
 */
module GrammarMatcher {
  import opened Results
  import opened Arith
  import opened GrammarRules
  import opened GrammarNullable
  import opened GrammarLeftRecursion
  import opened GrammarAutomaton
  import opened GrammarFeed

  // ---- the checks after parsing the rules -------------------------------------------------------

  datatype ParseError = UndefinedRule(id: nat) | UnknownReference(id: nat) | NoRoot | LeftRecursion(id: nat)

  ghost predicate RefersOutside(rules: Rules, id: nat)
    requires id < |rules|
  {
    exists i :: 0 <= i < |rules[id]| && rules[id][i].kind == RuleRef && rules[id][i].value >= |rules|
  }

  /** What the rule parser guarantees of each rule it has filled in. */
  ghost predicate ParsedRule(r: Rule) {
    r != [] ==> exists n :: WellFormedRule(r, n)
  }

  /**
   * Turns the parsed rules into a grammar, or reports why they are none. `root` is the number of
   * the rule named root, if that name occurs; a name that occurs is defined or referred to.
   */
  method FinishParse(rules: Rules, root: Option<nat>) returns (r: Result<Grammar, ParseError>)
    requires forall id :: 0 <= id < |rules| ==> ParsedRule(rules[id])
    requires root.Some? && root.value >= |rules| ==> exists id :: 0 <= id < |rules| && RefersOutside(rules, id)
    ensures r.Ok? ==> Valid(r.value) && r.value == Grammar(rules, root.GetOr(0))
    ensures r.Ok? <==>
      && (forall id :: 0 <= id < |rules| ==> rules[id] != [] && !RefersOutside(rules, id))
      && root.Some?
      && (forall id: nat :: !LeftRecursive(rules, id))
    ensures r.Err? ==> match r.error
      case UndefinedRule(id) => id < |rules| && rules[id] == []
      case UnknownReference(id) => id < |rules| && RefersOutside(rules, id)
      case NoRoot => root.None?
      case LeftRecursion(id) => LeftRecursive(rules, id)
  {
    for id := 0 to |rules|
      invariant forall j :: 0 <= j < id ==> rules[j] != [] && !RefersOutside(rules, j)
    {
      if rules[id] == [] {
        return Err(UndefinedRule(id));
      }
      for i := 0 to |rules[id]|
        invariant forall k :: 0 <= k < i && rules[id][k].kind == RuleRef ==> rules[id][k].value < |rules|
      {
        if rules[id][i].kind == RuleRef && rules[id][i].value >= |rules| {
          return Err(UnknownReference(id));
        }
      }
    }
    if root.None? {
      return Err(NoRoot);
    }
    assert WellFormed(rules) by {
      forall id | 0 <= id < |rules| ensures WellFormedRule(rules[id], |rules|) {
        assert ParsedRule(rules[id]) && !RefersOutside(rules, id);
      }
    }
    var nullable := NullableRules(rules);
    var lr, rank := LeftRecursiveRule(rules, nullable);
    match lr {
      case Some(id) => return Err(LeftRecursion(id));
      case None => return Ok(Grammar(rules, root.value));
    }
  }

  // ---- masking and accepting --------------------------------------------------------------------

  datatype Logit = NegInf | Finite(value: real)

  class Matcher {
    const g: Grammar
    const tokenBytes: seq<seq<byte>>
    const eosId: int
    var state: State
    /** The bytes of the tokens accepted so far. */
    ghost var text: seq<byte>

    /** The state is the one the accepted text leads to. */
    ghost predicate Consistent()
      reads this
    {
      && GrammarAutomaton.Valid(g) && IsFeedState(g, state)
      && if text == [] then state == StartFed(g) else Fed(g, StartFed(g), text) == Some(state)
    }

    constructor (g: Grammar, tokenBytes: seq<seq<byte>>, eosId: int)
      requires GrammarAutomaton.Valid(g)
      ensures Consistent() && text == []
      ensures this.g == g && this.tokenBytes == tokenBytes && this.eosId == eosId
    {
      this.g, this.tokenBytes, this.eosId := g, tokenBytes, eosId;
      var stacks := StartState(g);
      StartIsState(g);
      state := State(stacks, Partial(0, 0));
      text := [];
    }

    /**
     * Drives logits to minus infinity: of the end token unless the code points read so far are a string
     * of the grammar, and of any other token unless its bytes can come next.
     */
    method Mask(logits: array<Logit>)
      requires Consistent()
      modifies logits
      ensures forall id :: 0 <= id < Min(logits.Length, |tokenBytes|) && id != eosId ==>
        logits[id] == if Fed(g, state, tokenBytes[id]).Some? then old(logits[id]) else NegInf
      ensures 0 <= eosId < Min(logits.Length, |tokenBytes|) ==>
        logits[eosId] == if InLanguage(g, Decode(text, Partial(0, 0)).cpts) then old(logits[eosId]) else NegInf
      ensures forall id :: |tokenBytes| <= id < logits.Length ==> logits[id] == old(logits[id])
    {
      hide Fed;
      hide StateDerives;
      hide IsState;
      hide InLanguage;
      ReadSoFar();
      var comp := IsComplete();
      var n := Min(logits.Length, |tokenBytes|);
      for id := 0 to n
        invariant forall j :: 0 <= j < id && j != eosId ==>
          logits[j] == if Fed(g, state, tokenBytes[j]).Some? then old(logits[j]) else NegInf
        invariant 0 <= eosId < id ==> logits[eosId] == if comp then old(logits[eosId]) else NegInf
        invariant forall j :: id <= j < logits.Length ==> logits[j] == old(logits[j])
      {
        if id == eosId {
          if !comp {
            logits[id] := NegInf;
          }
          continue;
        }
        var next := Feed(g, state, tokenBytes[id]);
        if next.None? {
          logits[id] := NegInf;
        }
      }
    }

    /** The stacks are those that the finished code points of the text lead to. */
    lemma ReadSoFar()
      requires Consistent()
      ensures Decode(text, Partial(0, 0)).partial.remain >= 0
      ensures StateDerives(g.rules, state.stacks, []) <==> InLanguage(g, Decode(text, Partial(0, 0)).cpts)
      ensures text != [] ==> state.partial == Decode(text, Partial(0, 0)).partial
    {
      Exactness(g, Decode(text, Partial(0, 0)).cpts);
      CompleteStack(g, state.stacks);
    }

    /**
     * A token is kept exactly if the text with the token behind it can be fed from the start, and the token goes on
     * with continuation bytes where the text left a code point unfinished.
     */
    lemma KeptTokens(bytes: seq<byte>)
      requires Consistent()
      ensures Fed(g, state, bytes).Some? <==>
        && bytes != [] && Fed(g, StartFed(g), text + bytes).Some?
        && forall i :: 0 <= i < |bytes| && i < state.partial.remain ==> 0x80 <= bytes[i] < 0xC0
    {
      if text == [] {
        assert text + bytes == bytes;
      } else {
        FeedGoesOn(g, StartFed(g), text, bytes);
      }
    }

    /** Advances past a token whose bytes can come next; anything else leaves the matcher as it was. */
    method Accept(token: int)
      requires Consistent()
      modifies this
      ensures Consistent()
      ensures if token != eosId && 0 <= token < |tokenBytes| && old(Fed(g, state, tokenBytes[token])).Some?
        then text == old(text) + tokenBytes[token] && Some(state) == old(Fed(g, state, tokenBytes[token]))
        else text == old(text) && state == old(state)
    {
      if token == eosId || token < 0 || token >= |tokenBytes| {
        return;
      }
      var next := Feed(g, state, tokenBytes[token]);
      match next {
        case Some(s) =>
          if text != [] {
            FeedConcat(g, StartFed(g), text, tokenBytes[token]);
          } else {
            assert [] + tokenBytes[token] == tokenBytes[token];
          }
          state := s;
          text := text + tokenBytes[token];
        case None =>
      }
    }

    method IsComplete() returns (r: bool)
      requires Consistent()
      ensures r <==> StateDerives(g.rules, state.stacks, [])
    {
      r := Complete(g, state.stacks);
    }

    /** Generation that takes only allowed tokens and may end here spells a string of the grammar,
        provided no code point is left unfinished. */
    lemma SpelledText()
      requires Consistent() && state.partial.remain == 0
      ensures exists w :: Spells(text, w)
      ensures forall w :: Spells(text, w) ==> (StateDerives(g.rules, state.stacks, []) <==> InLanguage(g, w))
    {
      FedTextIsInLanguage(g, text, state);
    }
  }

  // ---- whole generations ------------------------------------------------------------------------

  /** The bytes of the tokens, one after the other. */
  function Joined(tokenBytes: seq<seq<byte>>, tokens: seq<int>): seq<byte>
    requires AreTokens(tokenBytes, tokens)
  {
    if tokens == [] then [] else tokenBytes[tokens[0]] + Joined(tokenBytes, tokens[1..])
  }

  predicate AreTokens(tokenBytes: seq<seq<byte>>, tokens: seq<int>) {
    forall i :: 0 <= i < |tokens| ==> 0 <= tokens[i] < |tokenBytes|
  }

  /** The state after a generation in which every token was left alone by the mask. */
  ghost function Generated(g: Grammar, tokenBytes: seq<seq<byte>>, s: State, tokens: seq<int>): (r: Option<State>)
    requires GrammarAutomaton.Valid(g) && IsFeedState(g, s) && AreTokens(tokenBytes, tokens)
    ensures r.Some? ==> IsFeedState(g, r.value)
    decreases |tokens|
  {
    if tokens == [] then Some(s)
    else
      match Fed(g, s, tokenBytes[tokens[0]])
      case None => None
      case Some(s1) => Generated(g, tokenBytes, s1, tokens[1..])
  }

  lemma {:induction false} GeneratedIsFed(g: Grammar, tokenBytes: seq<seq<byte>>, s: State, tokens: seq<int>)
    requires GrammarAutomaton.Valid(g) && IsFeedState(g, s) && AreTokens(tokenBytes, tokens) && tokens != []
    requires Generated(g, tokenBytes, s, tokens).Some?
    ensures Fed(g, s, Joined(tokenBytes, tokens)) == Generated(g, tokenBytes, s, tokens)
    decreases |tokens|
  {
    hide Fed;
    var bytes := tokenBytes[tokens[0]];
    var s1 := Fed(g, s, bytes).value;
    if |tokens| == 1 {
      assert bytes + [] == bytes;
    } else {
      GeneratedIsFed(g, tokenBytes, s1, tokens[1..]);
      FeedConcat(g, s, bytes, Joined(tokenBytes, tokens[1..]));
    }
  }

  /**
   * Soundness of masking. A generation that takes only tokens the mask leaves alone and may end
   * where it does spells a string of the grammar exactly if it leaves no code point unfinished.
   */
  lemma GenerationIsInLanguage(g: Grammar, tokenBytes: seq<seq<byte>>, tokens: seq<int>)
    requires GrammarAutomaton.Valid(g) && AreTokens(tokenBytes, tokens)
    requires var r := Generated(g, tokenBytes, StartFed(g), tokens);
      r.Some? && StateDerives(g.rules, r.value.stacks, [])
    ensures (exists w :: Spells(Joined(tokenBytes, tokens), w) && InLanguage(g, w))
      <==> Generated(g, tokenBytes, StartFed(g), tokens).value.partial.remain == 0
  {
    var s := Generated(g, tokenBytes, StartFed(g), tokens).value;
    var text := Joined(tokenBytes, tokens);
    if tokens != [] {
      GeneratedIsFed(g, tokenBytes, StartFed(g), tokens);
      FedIsNotEmpty(g, StartFed(g), text);
    }
    if s.partial.remain == 0 {
      FedTextIsInLanguage(g, text, s);
      var w :| Spells(text, w);
      assert InLanguage(g, w);
    } else {
      assert forall w :: !Spells(text, w);
    }
  }

  lemma FedIsNotEmpty(g: Grammar, s: State, bytes: seq<byte>)
    requires GrammarAutomaton.Valid(g) && IsFeedState(g, s) && Fed(g, s, bytes).Some?
    ensures bytes != []
  {
  }

  /** Every cut between tokens is well-formed, from the unfinished code point `p` on. */
  predicate TokensCutWell(tokenBytes: seq<seq<byte>>, p: Partial, tokens: seq<int>)
    requires AreTokens(tokenBytes, tokens) && p.remain >= 0
    decreases |tokens|
  {
    |tokens| > 1 ==>
      var q := Decode(tokenBytes[tokens[0]], p).partial;
      && CutsWell(q, Joined(tokenBytes, tokens[1..]))
      && (q.remain >= 0 ==> TokensCutWell(tokenBytes, q, tokens[1..]))
  }

  lemma {:induction false} FedTokensAreGenerated(g: Grammar, tokenBytes: seq<seq<byte>>, s: State, tokens: seq<int>)
    requires GrammarAutomaton.Valid(g) && IsFeedState(g, s) && AreTokens(tokenBytes, tokens) && tokens != []
    requires forall i :: 0 <= i < |tokens| ==> tokenBytes[tokens[i]] != []
    requires NegationsAreAscii(g) && TokensCutWell(tokenBytes, s.partial, tokens)
    requires Fed(g, s, Joined(tokenBytes, tokens)).Some?
    ensures Generated(g, tokenBytes, s, tokens) == Fed(g, s, Joined(tokenBytes, tokens))
    decreases |tokens|
  {
    hide StateDerives;
    hide IsState;
    hide NegationsAreAscii;
    hide CutsWell;
    var bytes := tokenBytes[tokens[0]];
    if |tokens| == 1 {
      assert bytes + [] == bytes;
    } else {
      assert tokenBytes[tokens[1..][0]] != [];
      FeedSplits(g, s, bytes, Joined(tokenBytes, tokens[1..]));
      var s1 := Fed(g, s, bytes).value;
      FedTokensAreGenerated(g, tokenBytes, s1, tokens[1..]);
    }
  }

  /**
   * Completeness of masking. Any way of cutting a text of the grammar into non-empty tokens can be
   * generated, and may end there, if no cut splits an ill-formed sequence and negated sets exclude
   * only one-byte code points.
   */
  lemma LanguageIsGenerated(g: Grammar, tokenBytes: seq<seq<byte>>, tokens: seq<int>, w: seq<nat>)
    requires GrammarAutomaton.Valid(g) && AreTokens(tokenBytes, tokens)
    requires forall i :: 0 <= i < |tokens| ==> tokenBytes[tokens[i]] != []
    requires NegationsAreAscii(g) && TokensCutWell(tokenBytes, Partial(0, 0), tokens)
    requires Spells(Joined(tokenBytes, tokens), w) && InLanguage(g, w)
    ensures var r := Generated(g, tokenBytes, StartFed(g), tokens);
      r.Some? && StateDerives(g.rules, r.value.stacks, []) && r.value.partial.remain == 0
  {
    Exactness(g, w);
    CompleteStack(g, AcceptAll(g, Start(g), w));
    if tokens != [] {
      assert Fed(g, StartFed(g), Joined(tokenBytes, tokens)) == Some(State(AcceptAll(g, Start(g), w), Decode(Joined(tokenBytes, tokens), Partial(0, 0)).partial));
      FedTokensAreGenerated(g, tokenBytes, StartFed(g), tokens);
    }
  }

  /** At every cut between tokens no code point is unfinished, or some stack passes the partial test. */
  ghost predicate CutsMayMatch(g: Grammar, tokenBytes: seq<seq<byte>>, s: State, tokens: seq<int>)
    requires GrammarAutomaton.Valid(g) && IsFeedState(g, s) && AreTokens(tokenBytes, tokens)
    decreases |tokens|
  {
    |tokens| > 1 ==>
      var d := Decode(tokenBytes[tokens[0]], s.partial);
      var stacks := AcceptAll(g, s.stacks, d.cpts);
      && Unfinished(d.partial)
      && (d.partial.remain > 0 ==> SomeMayMatch(g, stacks, d.partial))
      && CutsMayMatch(g, tokenBytes, State(stacks, d.partial), tokens[1..])
  }

  lemma {:induction false} CutsDecide(g: Grammar, tokenBytes: seq<seq<byte>>, s: State, tokens: seq<int>)
    requires GrammarAutomaton.Valid(g) && IsFeedState(g, s) && AreTokens(tokenBytes, tokens) && tokens != []
    requires forall i :: 0 <= i < |tokens| ==> tokenBytes[tokens[i]] != []
    requires TokensCutWell(tokenBytes, s.partial, tokens)
    requires Fed(g, s, Joined(tokenBytes, tokens)).Some?
    ensures Generated(g, tokenBytes, s, tokens).Some? <==> CutsMayMatch(g, tokenBytes, s, tokens)
    decreases |tokens|
  {
    hide IsState;
    hide CutsWell;
    var bytes := tokenBytes[tokens[0]];
    if |tokens| == 1 {
      assert bytes + [] == bytes;
    } else {
      assert tokenBytes[tokens[1..][0]] != [];
      var rest := Joined(tokenBytes, tokens[1..]);
      FeedSplitsExactly(g, s, bytes, rest);
      if Fed(g, s, bytes).Some? {
        CutsDecide(g, tokenBytes, Fed(g, s, bytes).value, tokens[1..]);
      }
    }
  }

  /**
   * Exactly when a way of cutting a text of the grammar into tokens can be generated, for any negated
   * sets: when no cut inside a code point fails the partial test. It may then end there.
   */
  lemma LanguageIsGeneratedExactly(g: Grammar, tokenBytes: seq<seq<byte>>, tokens: seq<int>, w: seq<nat>)
    requires GrammarAutomaton.Valid(g) && AreTokens(tokenBytes, tokens)
    requires forall i :: 0 <= i < |tokens| ==> tokenBytes[tokens[i]] != []
    requires TokensCutWell(tokenBytes, Partial(0, 0), tokens)
    requires Spells(Joined(tokenBytes, tokens), w) && InLanguage(g, w)
    ensures var r := Generated(g, tokenBytes, StartFed(g), tokens);
      && (r.Some? <==> CutsMayMatch(g, tokenBytes, StartFed(g), tokens))
      && (r.Some? ==> StateDerives(g.rules, r.value.stacks, []) && r.value.partial.remain == 0)
  {
    Exactness(g, w);
    CompleteStack(g, AcceptAll(g, Start(g), w));
    if tokens != [] {
      assert Fed(g, StartFed(g), Joined(tokenBytes, tokens)) == Some(State(AcceptAll(g, Start(g), w), Decode(Joined(tokenBytes, tokens), Partial(0, 0)).partial));
      CutsDecide(g, tokenBytes, StartFed(g), tokens);
      if Generated(g, tokenBytes, StartFed(g), tokens).Some? {
        GeneratedIsFed(g, tokenBytes, StartFed(g), tokens);
      }
    }
  }

  // ---- the two side conditions are needed -------------------------------------------------------

  const E_ACUTE: nat := 0xE9

  lemma OneRuleIsValid(g: Grammar, r: Rule)
    requires g == Grammar([r], 0) && WellFormedRule(r, 1)
    requires forall i :: 0 <= i < |r| ==> r[i].kind != RuleRef
    ensures GrammarAutomaton.Valid(g)
  {
    forall u: nat, v: nat ensures !Edge(g.rules, u, v) {
    }
    assert LeftRanks(g.rules, [0]);
  }

  const OPTIONAL_ACCENT: Grammar := Grammar([[Element(Char, E_ACUTE), Element(Alt, 0), Element(End, 0)]], 0)
  const NO_ACCENT: Grammar := Grammar([[Element(CharNot, E_ACUTE), Element(End, 0)]], 0)

  /** An optional two-byte character starts with a stack that waits for it and the empty stack. */
  lemma OptionalStart()
    ensures GrammarAutomaton.Valid(OPTIONAL_ACCENT) && Start(OPTIONAL_ACCENT) == [[Pos(0, 0)], []]
  {
    var g := OPTIONAL_ACCENT;
    var rule := g.rules[0];
    OneRuleIsValid(g, rule);
    var top := [Pos(0, 0)];
    var noStack: Stack := [];
    AlternateIsPlace(g.rules, 0, 0);
    assert [] + [Pos(0, 0)] == top;
    AdvanceCases(g, top, []);
    AdvanceCases(g, [], [top]);
    assert AlternateEnd(rule, 0) == 1 && AlternateEnd(rule, 2) == 2;
    AlternateIsPlace(g.rules, 0, 2);
    hide Advance;
    assert Push(g, [], Pos(0, 2)) == noStack;
    assert AddNew([], top) == [top] && AddNew([top], noStack) == [top, noStack];
    assert StartFrom(g, 2, [top]) == [top, noStack];
  }

  /** A negated character starts with one stack, which waits for it. */
  lemma NegatedStart()
    ensures GrammarAutomaton.Valid(NO_ACCENT) && Start(NO_ACCENT) == [[Pos(0, 0)]]
  {
    var g := NO_ACCENT;
    var rule := g.rules[0];
    OneRuleIsValid(g, rule);
    var top := [Pos(0, 0)];
    AlternateIsPlace(g.rules, 0, 0);
    assert [] + [Pos(0, 0)] == top;
    AdvanceCases(g, top, []);
    hide Advance;
    assert AlternateEnd(rule, 0) == 1;
    assert AddNew([], top) == [top];
  }

  /** Any other character completes it. */
  lemma NegatedAccepts()
    ensures GrammarAutomaton.Valid(NO_ACCENT) && OnSymbols(NO_ACCENT, [Pos(0, 0)])
    ensures Accept(NO_ACCENT, [[Pos(0, 0)]], 0xE8) == [[]]
  {
    NegatedStart();
    hide Start;
    var g, top := NO_ACCENT, [Pos(0, 0)];
    var noStack: Stack := [];
    assert top[..0] == noStack;
    assert Push(g, noStack, Pos(0, 1)) == noStack;
    AdvanceCases(g, noStack, []);
    hide Advance;
    assert AcceptOne(g, top, 0xE8, []) == AddNew([], noStack) == [noStack];
    assert [top][..0] == [];
  }

  /** The test for completeness ignores an unfinished code point: after the first byte of an optional
      two-byte character the automaton may stop, although the text spells nothing. */
  lemma CompleteWhileUnfinished()
    ensures GrammarAutomaton.Valid(OPTIONAL_ACCENT)
    ensures var r := Fed(OPTIONAL_ACCENT, StartFed(OPTIONAL_ACCENT), [0xC3]);
      && r.Some? && StateDerives(OPTIONAL_ACCENT.rules, r.value.stacks, []) && r.value.partial.remain > 0
      && forall w :: !Spells([0xC3], w)
  {
    OptionalStart();
    hide Start;
    var g := OPTIONAL_ACCENT;
    AccentedBytes();
    SpanValues();
    assert TopMayMatch(g, Start(g)[0], Partial(3, 1));
    var e: seq<nat> := [];
    assert StackDerives(g.rules, Start(g)[1], e);
  }

  /** With a negated set that excludes a two-byte code point, a text that can be fed at once cannot
      be fed with the cut inside another code point that starts with the same byte. */
  lemma NegationBlocksCut()
    ensures GrammarAutomaton.Valid(NO_ACCENT)
    ensures var g := NO_ACCENT;
      && Fed(g, StartFed(g), [0xC3, 0xA8]).Some?
      && CutsWell(Decode([0xC3], Partial(0, 0)).partial, [0xA8])
      && Fed(g, StartFed(g), [0xC3]).None?
  {
    NegatedStart();
    NegatedAccepts();
    hide Start;
    hide Accept;
    hide CutsWell;
    AccentedBytes();
    hide Decode;
    SpanValues();
    var g, top := NO_ACCENT, [Pos(0, 0)];
    assert !TopMayMatch(g, top, Partial(3, 1));
    AcceptStep(g, [top], [0xE8]);
    assert [0xE8][1..] == [];
  }

  /** The bytes of U+00E8, cut and whole. */
  lemma AccentedBytes()
    ensures Decode([0xC3], Partial(0, 0)) == Decoded([], Partial(3, 1))
    ensures Decode([0xC3, 0xA8], Partial(0, 0)) == Decoded([0xE8], Partial(0xE8, 0))
    ensures CutsWell(Partial(3, 1), [0xA8])
  {
    LeadByte();
    assert [0xC3][1..] == [] && [0xC3, 0xA8][1..] == [0xA8] && [0xA8][1..] == [];
  }

  lemma LeadByte()
    ensures LeadLength(0xC3) == 2 && LeadPayload(0xC3, 1) == 3
  {
    assert Pow2(6) == 64;
  }
}
