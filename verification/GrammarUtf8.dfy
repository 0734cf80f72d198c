/**
 * Generation of valid text: on UTF-8 (RFC 3629) the side conditions on cuts hold by themselves, and
 * masked generation spells exactly the strings of the grammar.
 */
module GrammarUtf8 {
  import opened Results
  import opened Arith
  import opened GrammarRules
  import opened GrammarAutomaton
  import opened GrammarFeed
  import opened GrammarMatcher
  import Utf8

  // ---- the feeding decoder on encoded text ------------------------------------------------------

  /** The payload after the first `k` bytes of a sequence. */
  function PayloadAfter(e: seq<byte>, k: nat): nat
    requires 0 < k <= |e| <= 4
  {
    if k == 1 then LeadPayload(e[0], |e| - 1) else Shifted(PayloadAfter(e, k - 1), e[k - 1])
  }

  /** A sequence in front of anything, from its byte `k` on. */
  lemma {:induction false} SequenceStep(e: seq<byte>, rest: seq<byte>, k: nat)
    requires 0 < k < |e| <= 4
    ensures DecodeFrom(e[k..] + rest, PayloadAfter(e, k), |e| - k, false)
         == Before(PayloadAfter(e, |e|), DecodeFrom(rest, PayloadAfter(e, |e|), 0, false))
    decreases |e| - k
  {
    hide Shifted;
    hide LeadPayload;
    var s := e[k..] + rest;
    assert s[0] == e[k] && s[1..] == e[k + 1..] + rest;
    if k + 1 < |e| {
      SequenceStep(e, rest, k + 1);
    } else {
      assert e[k + 1..] + rest == rest;
    }
  }

  /** The bytes of one code point in front of anything. */
  lemma DecodesOne(c: nat, rest: seq<byte>, v: nat, carried: bool)
    requires c < Utf8.LIMIT
    ensures DecodeFrom(Utf8.Encode(c) + rest, v, 0, carried) == Before(c, DecodeFrom(rest, c, 0, false))
  {
    hide Shifted;
    hide LeadPayload;
    var e := Utf8.Encode(c);
    var s := e + rest;
    SequenceLead(c);
    SequencePayload(c);
    assert s[0] == e[0] && s[1..] == e[1..] + rest;
    if |e| == 1 {
      assert e[1..] + rest == rest;
    } else {
      SequenceStep(e, rest, 1);
    }
  }

  lemma SequenceLead(c: nat)
    requires c < Utf8.LIMIT
    ensures LeadLength(Utf8.Encode(c)[0]) == |Utf8.Encode(c)|
    ensures forall i :: 1 <= i < |Utf8.Encode(c)| ==> Continues(Utf8.Encode(c)[i])
  {
  }

  lemma PayloadPowers()
    ensures Pow2(7) == 128 && Pow2(6) == 64 && Pow2(5) == 32 && Pow2(4) == 16
  {
  }

  lemma LeadIs(e: seq<byte>, u: nat)
    requires 0 < |e| <= 4
    requires |e| == 1 ==> u < 128 && e[0] == u
    requires |e| == 2 ==> u < 32 && e[0] == 0xC0 + u
    requires |e| == 3 ==> u < 16 && e[0] == 0xE0 + u
    requires |e| == 4 ==> u < 16 && e[0] == 0xF0 + u
    ensures PayloadAfter(e, 1) == u
  {
    PayloadPowers();
  }

  lemma NextIs(e: seq<byte>, k: nat, u: nat, low: nat)
    requires 1 < k <= |e| <= 4 && low < 64 && e[k - 1] == 0x80 + low
    requires PayloadAfter(e, k - 1) == u < 0x8000
    ensures PayloadAfter(e, k) == u * 64 + low
  {
  }

  /** The payloads are the leading bits of the code point. */
  lemma SequencePayload(c: nat)
    requires c < Utf8.LIMIT
    ensures var e := Utf8.Encode(c);
      && PayloadAfter(e, |e|) == c
      && (|e| >= 2 ==> PayloadAfter(e, |e| - 1) == c / 64)
      && (|e| >= 3 ==> PayloadAfter(e, |e| - 2) == c / 4096)
      && (|e| >= 4 ==> PayloadAfter(e, |e| - 3) == c / 262144)
  {
    hide PayloadAfter;
    var e := Utf8.Encode(c);
    assert c / 4096 == c / 64 / 64 && c / 262144 == c / 4096 / 64;
    if |e| == 1 {
      LeadIs(e, c);
    } else if |e| == 2 {
      LeadIs(e, c / 64);
      NextIs(e, 2, c / 64, c % 64);
    } else if |e| == 3 {
      LeadIs(e, c / 4096);
      NextIs(e, 2, c / 4096, c / 64 % 64);
      NextIs(e, 3, c / 64, c % 64);
    } else {
      LeadIs(e, c / 262144);
      NextIs(e, 2, c / 262144, c / 4096 % 64);
      NextIs(e, 3, c / 4096, c / 64 % 64);
      NextIs(e, 4, c / 64, c % 64);
    }
  }

  /** The bytes of code points spell them. */
  lemma {:induction false} EncodedSpells(w: seq<nat>, v: nat, carried: bool)
    requires Utf8.Encodable(w)
    ensures var d := DecodeFrom(Utf8.EncodeAll(w), v, 0, carried); d.cpts == w && d.partial.remain == 0
    decreases |w|
  {
    if w != [] {
      DecodesOne(w[0], Utf8.EncodeAll(w[1..]), v, carried);
      EncodedSpells(w[1..], w[0], false);
    }
  }

  /** The first bytes of a sequence leave their payload. */
  lemma {:induction false} PrefixStep(e: seq<byte>, k: nat, j: nat)
    requires 0 < j <= k < |e| <= 4
    ensures DecodeFrom(e[j..k], PayloadAfter(e, j), |e| - j, false).partial == Partial(PayloadAfter(e, k), |e| - k)
    decreases k - j
  {
    hide Shifted;
    hide LeadPayload;
    if j < k {
      assert e[j..k][0] == e[j] && e[j..k][1..] == e[j + 1..k];
      PrefixStep(e, k, j + 1);
    }
  }

  /** A cut inside the bytes of one code point. */
  lemma CutInsideOne(c: nat, k: nat, rest: seq<byte>, v: nat, carried: bool)
    requires c < Utf8.LIMIT && 0 < k < |Utf8.Encode(c)|
    ensures var p := DecodeFrom(Utf8.Encode(c)[..k], v, 0, carried).partial;
      p.remain == |Utf8.Encode(c)| - k && CutsWell(p, Utf8.Encode(c)[k..] + rest)
  {
    hide Shifted;
    hide LeadPayload;
    hide PayloadAfter;
    var e := Utf8.Encode(c);
    SequenceLead(c);
    SequencePayload(c);
    assert e[..k][0] == e[0] && e[..k][1..] == e[1..k];
    FirstPayload(e);
    PrefixStep(e, k, 1);
    NotOverlong(c, k);
  }

  lemma FirstPayload(e: seq<byte>)
    requires 0 < |e| <= 4
    ensures PayloadAfter(e, 1) == LeadPayload(e[0], |e| - 1)
  {
  }

  /** The partial test looks at exactly the code points whose bytes begin with the unfinished ones. */
  lemma PartialRange(p: Partial, c: nat)
    requires Unfinished(p) && p.remain > 0 && c < Utf8.LIMIT
    ensures LowEnd(p) <= c <= HighEnd(p) && !(p.remain == 1 && p.value < 2) <==>
      var e := Utf8.Encode(c); p.remain < |e| && Decode(e[..|e| - p.remain], Partial(0, 0)).partial == p
  {
    hide Shifted;
    hide LeadPayload;
    hide PayloadAfter;
    hide LowEnd;
    hide HighEnd;
    var e := Utf8.Encode(c);
    BetweenEnds(p, c);
    EncodedLength(c);
    SequencePayload(c);
    assert Pow2(6) == 64 && Pow2(12) == 4096 && Pow2(18) == 262144 by {
      assert Pow2(6) == 64;
      Pow2Add(6, 6);
      Pow2Add(12, 6);
    }
    if p.remain < |e| {
      var k := |e| - p.remain;
      SequenceLead(c);
      assert e[..k][0] == e[0] && e[..k][1..] == e[1..k];
      FirstPayload(e);
      PrefixStep(e, k, 1);
    }
  }

  lemma EncodedLength(c: nat)
    requires c < Utf8.LIMIT
    ensures |Utf8.Encode(c)| == if c < 0x80 then 1 else if c < 0x800 then 2 else if c < 0x1_0000 then 3 else 4
  {
  }

  /** No encoding is an overlong form. */
  lemma NotOverlong(c: nat, k: nat)
    requires c < Utf8.LIMIT && 0 < k < |Utf8.Encode(c)|
    ensures var e := Utf8.Encode(c);
      && (|e| - k == 1 ==> c / 64 >= 2)
      && (|e| - k == 2 && c / 4096 == 0 ==> e[k] >= 0xA0)
      && (|e| - k == 3 && c / 262144 == 0 ==> e[k] >= 0x90)
  {
  }

  /** Wherever the bytes of code points are cut, nothing is ill-formed. */
  lemma {:induction false} EncodingCutsWell(w: seq<nat>, a: seq<byte>, b: seq<byte>, v: nat, carried: bool)
    requires Utf8.Encodable(w) && a + b == Utf8.EncodeAll(w)
    ensures var p := DecodeFrom(a, v, 0, carried).partial; p.remain >= 0 && CutsWell(p, b)
    decreases |w|
  {
    if w != [] && a != [] {
      var e, later := Utf8.Encode(w[0]), Utf8.EncodeAll(w[1..]);
      if |a| < |e| {
        assert a == e[..|a|] && b == e[|a|..] + later by {
          assert (a + b)[..|a|] == (e + later)[..|a|];
          assert (a + b)[|a|..] == (e + later)[|a|..];
        }
        CutInsideOne(w[0], |a|, later, v, carried);
      } else {
        var a1 := a[|e|..];
        assert a == e + a1 && a1 + b == later by {
          assert (a + b)[..|e|] == (e + later)[..|e|];
          assert (a + b)[|e|..] == (e + later)[|e|..];
        }
        DecodesOne(w[0], a1, v, carried);
        EncodingCutsWell(w[1..], a1, b, w[0], false);
      }
    }
  }

  lemma CutsWellPrefix(p: Partial, a: seq<byte>, b: seq<byte>)
    requires CutsWell(p, a + b)
    ensures CutsWell(p, a)
  {
    if p.remain > 0 {
      assert forall i :: 0 <= i < |a| ==> (a + b)[i] == a[i];
    }
  }

  /** Decoding goes on where it stopped. */
  lemma DecodeGoesOn(w: seq<nat>, a: seq<byte>, b: seq<byte>, c: seq<byte>)
    requires Utf8.Encodable(w) && a + b + c == Utf8.EncodeAll(w)
    ensures var p := Decode(a, Partial(0, 0)).partial;
      && p.remain >= 0 && CutsWell(p, b)
      && Decode(b, p).partial == Decode(a + b, Partial(0, 0)).partial
      && Decode(b, p).partial.remain >= 0
  {
    assert a + (b + c) == Utf8.EncodeAll(w);
    EncodingCutsWell(w, a, b + c, 0, true);
    EncodingCutsWell(w, a + b, c, 0, true);
    CutsWellPrefix(Decode(a, Partial(0, 0)).partial, b, c);
    DecodeSplits(a, b, 0, 0, true);
    DecodeConcat(a, b, 0, 0, true);
  }

  /** Tokens that join to valid text cut it well. */
  lemma {:induction false} TokensCutEncodingWell(tokenBytes: seq<seq<byte>>, tokens: seq<int>, w: seq<nat>, a: seq<byte>)
    requires AreTokens(tokenBytes, tokens) && Utf8.Encodable(w)
    requires a + Joined(tokenBytes, tokens) == Utf8.EncodeAll(w)
    ensures var p := Decode(a, Partial(0, 0)).partial; p.remain >= 0 && TokensCutWell(tokenBytes, p, tokens)
    decreases |tokens|
  {
    hide CutsWell;
    EncodingCutsWell(w, a, Joined(tokenBytes, tokens), 0, true);
    if |tokens| > 1 {
      var bytes, rest := tokenBytes[tokens[0]], Joined(tokenBytes, tokens[1..]);
      assert a + bytes + rest == Utf8.EncodeAll(w) by {
        assert a + (bytes + rest) == a + bytes + rest;
      }
      DecodeGoesOn(w, a, bytes, rest);
      EncodingCutsWell(w, a + bytes, rest, 0, true);
      TokensCutEncodingWell(tokenBytes, tokens[1..], w, a + bytes);
    }
  }

  // ---- generation of valid text -----------------------------------------------------------------

  /** The tokens can be generated one after the other under the mask, and the generation may end there. */
  ghost predicate MayGenerate(g: Grammar, tokenBytes: seq<seq<byte>>, tokens: seq<int>)
    requires GrammarAutomaton.Valid(g) && AreTokens(tokenBytes, tokens)
  {
    var r := Generated(g, tokenBytes, StartFed(g), tokens);
    r.Some? && StateDerives(g.rules, r.value.stacks, [])
  }

  lemma GeneratedTextIsInLanguage(g: Grammar, tokenBytes: seq<seq<byte>>, tokens: seq<int>, w: seq<nat>)
    requires GrammarAutomaton.Valid(g) && AreTokens(tokenBytes, tokens)
    requires Utf8.Encodable(w) && Joined(tokenBytes, tokens) == Utf8.EncodeAll(w) && MayGenerate(g, tokenBytes, tokens)
    ensures InLanguage(g, w)
  {
    EncodedSpells(w, 0, true);
    if tokens != [] {
      GeneratedIsFed(g, tokenBytes, StartFed(g), tokens);
    }
    GenerationIsInLanguage(g, tokenBytes, tokens);
  }

  /** A token without bytes is always masked. */
  lemma {:induction false} GeneratedAreNotEmpty(g: Grammar, tokenBytes: seq<seq<byte>>, s: State, tokens: seq<int>)
    requires GrammarAutomaton.Valid(g) && IsFeedState(g, s) && AreTokens(tokenBytes, tokens)
    requires Generated(g, tokenBytes, s, tokens).Some?
    ensures NoneIsEmpty(tokenBytes, tokens)
    decreases |tokens|
  {
    if tokens != [] {
      FedIsNotEmpty(g, s, tokenBytes[tokens[0]]);
      GeneratedAreNotEmpty(g, tokenBytes, Fed(g, s, tokenBytes[tokens[0]]).value, tokens[1..]);
      assert forall i :: 1 <= i < |tokens| ==> tokens[i] == tokens[1..][i - 1];
    }
  }

  predicate NoneIsEmpty(tokenBytes: seq<seq<byte>>, tokens: seq<int>)
    requires AreTokens(tokenBytes, tokens)
  {
    forall i :: 0 <= i < |tokens| ==> tokenBytes[tokens[i]] != []
  }

  /**
   * A way of cutting the UTF-8 bytes of `w` into tokens can be generated, and ended, exactly if `w` is a string
   * of the grammar, no token is empty and every cut inside a code point passes the partial test.
   */
  lemma EncodedTextIsGenerated(g: Grammar, tokenBytes: seq<seq<byte>>, tokens: seq<int>, w: seq<nat>)
    requires GrammarAutomaton.Valid(g) && AreTokens(tokenBytes, tokens)
    requires Utf8.Encodable(w) && Joined(tokenBytes, tokens) == Utf8.EncodeAll(w)
    ensures MayGenerate(g, tokenBytes, tokens)
      <==> InLanguage(g, w) && NoneIsEmpty(tokenBytes, tokens) && CutsMayMatch(g, tokenBytes, StartFed(g), tokens)
  {
    EncodedSpells(w, 0, true);
    assert [] + Joined(tokenBytes, tokens) == Utf8.EncodeAll(w);
    TokensCutEncodingWell(tokenBytes, tokens, w, []);
    if MayGenerate(g, tokenBytes, tokens) {
      GeneratedTextIsInLanguage(g, tokenBytes, tokens, w);
      GeneratedAreNotEmpty(g, tokenBytes, StartFed(g), tokens);
    }
    if InLanguage(g, w) && NoneIsEmpty(tokenBytes, tokens) {
      LanguageIsGeneratedExactly(g, tokenBytes, tokens, w);
    }
  }

  /**
   * With negated sets that exclude only one-byte code points, masked generation of valid text spells
   * exactly the strings of the grammar, however the text is cut into tokens.
   */
  lemma GenerationIsExact(g: Grammar, tokenBytes: seq<seq<byte>>, tokens: seq<int>, w: seq<nat>)
    requires GrammarAutomaton.Valid(g) && AreTokens(tokenBytes, tokens) && NegationsAreAscii(g)
    requires Utf8.Encodable(w) && Joined(tokenBytes, tokens) == Utf8.EncodeAll(w)
    ensures MayGenerate(g, tokenBytes, tokens) <==> InLanguage(g, w) && NoneIsEmpty(tokenBytes, tokens)
  {
    hide NegationsAreAscii;
    EncodedSpells(w, 0, true);
    assert [] + Joined(tokenBytes, tokens) == Utf8.EncodeAll(w);
    TokensCutEncodingWell(tokenBytes, tokens, w, []);
    if MayGenerate(g, tokenBytes, tokens) {
      GeneratedTextIsInLanguage(g, tokenBytes, tokens, w);
      GeneratedAreNotEmpty(g, tokenBytes, StartFed(g), tokens);
    }
    if InLanguage(g, w) && NoneIsEmpty(tokenBytes, tokens) {
      LanguageIsGenerated(g, tokenBytes, tokens, w);
    }
  }

  /**
   * With such negated sets, feeding valid text in two pieces, or any part of it from the front, has the same
   * outcome as feeding it at once, be that a state or a refusal.
   */
  lemma FeedingIsIndependentOfCuts(g: Grammar, w: seq<nat>, a: seq<byte>, b: seq<byte>, c: seq<byte>)
    requires GrammarAutomaton.Valid(g) && NegationsAreAscii(g) && Utf8.Encodable(w) && a + b + c == Utf8.EncodeAll(w)
    requires a != [] && b != []
    ensures var s := Fed(g, StartFed(g), a);
      (if s.Some? then Fed(g, s.value, b) else None) == Fed(g, StartFed(g), a + b)
  {
    hide NegationsAreAscii;
    hide Fed;
    DecodeGoesOn(w, a, b, c);
    var s := Fed(g, StartFed(g), a);
    if s.Some? && Fed(g, s.value, b).Some? {
      FeedConcat(g, StartFed(g), a, b);
    }
    if Fed(g, StartFed(g), a + b).Some? {
      FeedSplits(g, StartFed(g), a, b);
    }
  }

  // ---- the generation loop ----------------------------------------------------------------------

  /**
   * The generation loop with given logits and a given sequence of choices in place of the sampler: every step masks
   * a copy of the logits, and an end token ends it. `legal` says that no choice was masked.
   */
  method DecodeLoop(m: Matcher, rows: seq<seq<real>>, tokens: seq<int>) returns (legal: bool)
    requires m.Consistent() && m.text == [] && AreTokens(m.tokenBytes, tokens) && 0 <= m.eosId < |m.tokenBytes|
    requires forall i :: 0 <= i < |tokens| ==> tokens[i] != m.eosId
    requires |rows| == |tokens| + 1 && forall t :: 0 <= t < |rows| ==> |rows[t]| == |m.tokenBytes|
    modifies m
    ensures m.Consistent() && (legal ==> m.text == Joined(m.tokenBytes, tokens))
    ensures legal && m.state.partial.remain == 0 ==> exists w :: Spells(m.text, w) && InLanguage(m.g, w)
    ensures legal <==> MayGenerate(m.g, m.tokenBytes, tokens)
    ensures NegationsAreAscii(m.g) ==> forall w ::
      Utf8.Encodable(w) && Joined(m.tokenBytes, tokens) == Utf8.EncodeAll(w)
      ==> (legal <==> InLanguage(m.g, w) && forall i :: 0 <= i < |tokens| ==> m.tokenBytes[tokens[i]] != [])
  {
    hide Fed;
    hide IsState;
    hide InLanguage;
    hide NegationsAreAscii;
    hide StateDerives;
    legal := true;
    forall w | NegationsAreAscii(m.g) && Utf8.Encodable(w) && Joined(m.tokenBytes, tokens) == Utf8.EncodeAll(w)
      ensures MayGenerate(m.g, m.tokenBytes, tokens) <==> InLanguage(m.g, w) && NoneIsEmpty(m.tokenBytes, tokens)
    {
      GenerationIsExact(m.g, m.tokenBytes, tokens, w);
    }
    assert tokens[0..] == tokens;
    for t := 0 to |tokens|
      invariant m.Consistent() && m.text + Joined(m.tokenBytes, tokens[t..]) == Joined(m.tokenBytes, tokens)
      invariant Generated(m.g, m.tokenBytes, StartFed(m.g), tokens) == Generated(m.g, m.tokenBytes, m.state, tokens[t..])
    {
      var masked := new Logit[|m.tokenBytes|](id requires 0 <= id < |rows[t]| => Finite(rows[t][id]));
      m.Mask(masked);
      GeneratedStep(m.g, m.tokenBytes, m.state, tokens[t..]);
      assert tokens[t..][1..] == tokens[t + 1..];
      if masked[tokens[t]] == NegInf {
        return false;
      }
      m.Accept(tokens[t]);
    }
    m.ReadSoFar();
    NothingJoined(m.tokenBytes, tokens[|tokens|..]);
    var masked := new Logit[|m.tokenBytes|](id requires 0 <= id < |rows[|tokens|]| => Finite(rows[|tokens|][id]));
    m.Mask(masked);
    legal := masked[m.eosId] != NegInf;
    assert m.state.partial.remain == 0 ==> Spells(m.text, Decode(m.text, Partial(0, 0)).cpts);
  }

  lemma GeneratedStep(g: Grammar, tokenBytes: seq<seq<byte>>, s: State, tokens: seq<int>)
    requires GrammarAutomaton.Valid(g) && IsFeedState(g, s) && AreTokens(tokenBytes, tokens) && tokens != []
    ensures var next := Fed(g, s, tokenBytes[tokens[0]]);
      Generated(g, tokenBytes, s, tokens) == if next.Some? then Generated(g, tokenBytes, next.value, tokens[1..]) else None
    ensures Joined(tokenBytes, tokens) == tokenBytes[tokens[0]] + Joined(tokenBytes, tokens[1..])
  {
    hide Fed;
  }

  lemma NothingJoined(tokenBytes: seq<seq<byte>>, tokens: seq<int>)
    requires tokens == []
    ensures Joined(tokenBytes, tokens) == []
  {
  }
}
