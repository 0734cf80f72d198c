/** The cut of a text into words: hand-written scanning that finds the matches of a regular expression. */
module Pretokenizer {
  import opened Results
  import opened Regex

  /** The character tables. */
  datatype Classes = Classes(letter: Class, number: Class, space: Class)

  const LF: nat := 10
  const CR: nat := 13
  const SPACE: nat := 32
  const QUOTE: nat := 39

  /** What the scan reads past the end. */
  const OUT_OF_RANGE: nat := 0xFFFF_FFFF

  /** Facts of the tables the scan relies on. */
  ghost predicate Sound(k: Classes) {
    && (forall c: nat :: !(k.letter(c) && k.number(c)))
    && k.space(LF) && k.space(CR) && k.space(SPACE)
    && !k.letter(LF) && !k.letter(CR) && !k.number(LF) && !k.number(CR)
  }

  // ---- the expression ---------------------------------------------------------------------------

  function Is(ch: nat): Class {
    (c: nat) => c == ch
  }

  function LowerAscii(c: nat): nat {
    if 65 <= c <= 90 then c + 32 else c
  }

  /** A lower-case letter, in either case. */
  function Letter(ch: nat): Class {
    (c: nat) => LowerAscii(c) == ch
  }

  function Newline(): Class {
    (c: nat) => c == CR || c == LF
  }

  function Other(k: Classes): Class {
    (c: nat) => !k.space(c) && !k.letter(c) && !k.number(c)
  }

  function Lead(k: Classes): Class {
    (c: nat) => c != CR && c != LF && !k.letter(c) && !k.number(c)
  }

  function NonSpace(k: Classes): Class {
    (c: nat) => !k.space(c)
  }

  /** `'x` and `'xy`. */
  function Short(x: nat): Re {
    Then(One(Is(QUOTE)), One(Letter(x)))
  }

  function Long(x: nat, y: nat): Re {
    Then(One(Is(QUOTE)), Then(One(Letter(x)), One(Letter(y))))
  }

  /** 's, 't, 're, 've, 'm, 'll, 'd */
  function Contraction(): Re {
    Or(Short(115), Or(Short(116), Or(Long(114, 101), Or(Long(118, 101), Or(Short(109), Or(Long(108, 108), Short(100)))))))
  }

  /** One character that is no line break, letter or number, if there is one; then letters. */
  function Letters(k: Classes): Re {
    Then(Opt(Lead(k)), Plus(k.letter))
  }

  /** A space if there is one, then characters of no class, then line breaks. */
  function Symbols(k: Classes): Re {
    Then(Opt(Is(SPACE)), Then(One(Other(k)), Then(Star(Other(k)), Star(Newline()))))
  }

  function LineBreaks(k: Classes): Re {
    Then(Star(k.space), Plus(Newline()))
  }

  /** White space that no other character follows. */
  function Trailing(k: Classes): Re {
    Then(One(k.space), Then(Star(k.space), NotAhead(NonSpace(k))))
  }

  /** The alternatives in the order in which they are tried. */
  function Pattern(k: Classes): Re {
    Or(Contraction(), Or(Letters(k), Or(One(k.number), Or(Symbols(k), Or(LineBreaks(k), Or(Trailing(k), Plus(k.space)))))))
  }

  // ---- every match moves forward ----------------------------------------------------------------

  predicate Consumes(re: Re) {
    match re
    case One(_) => true
    case Then(a, b) => Consumes(a) || Consumes(b)
    case Or(a, b) => Consumes(a) && Consumes(b)
    case _ => false
  }

  lemma {:induction false} EndsInRange(re: Re, s: seq<nat>, p: nat)
    requires p <= |s|
    ensures forall i :: 0 <= i < |Ends(re, s, p)| ==> p <= Ends(re, s, p)[i] <= |s|
    ensures Consumes(re) ==> forall i :: 0 <= i < |Ends(re, s, p)| ==> p < Ends(re, s, p)[i]
    decreases re, 0, |s| - p
  {
    match re
    case Star(c) =>
      if At(s, p, c) {
        EndsInRange(re, s, p + 1);
      }
    case Then(a, b) =>
      EndsInRange(a, s, p);
      ContinueInRange(b, s, Ends(a, s, p), if Consumes(a) then p + 1 else p);
    case Or(a, b) =>
      EndsInRange(a, s, p);
      EndsInRange(b, s, p);
    case _ =>
  }

  lemma {:induction false} ContinueInRange(re: Re, s: seq<nat>, places: seq<nat>, p: nat)
    requires forall i :: 0 <= i < |places| ==> p <= places[i] <= |s|
    ensures forall i :: 0 <= i < |Continue(re, s, places)| ==> p <= Continue(re, s, places)[i] <= |s|
    ensures Consumes(re) ==> forall i :: 0 <= i < |Continue(re, s, places)| ==> p < Continue(re, s, places)[i]
    decreases re, 1, |places|
  {
    if places != [] {
      EndsInRange(re, s, places[0]);
      ContinueInRange(re, s, places[1..], p);
    }
  }

  lemma PatternConsumes(k: Classes)
    ensures Consumes(Pattern(k))
  {
    assert Consumes(Plus(k.letter)) && Consumes(Plus(k.space)) && Consumes(Plus(Newline()));
    var r6 := Or(Trailing(k), Plus(k.space));
    var r5 := Or(LineBreaks(k), r6);
    var r4 := Or(Symbols(k), r5);
    var r3 := Or(One(k.number), r4);
    assert Consumes(r6) && Consumes(r5) && Consumes(r4) && Consumes(r3);
    var c6 := Or(Long(108, 108), Short(100));
    var c5 := Or(Short(109), c6);
    var c4 := Or(Long(118, 101), c5);
    var c3 := Or(Long(114, 101), c4);
    assert Consumes(c6) && Consumes(c5) && Consumes(c4) && Consumes(c3);
    assert Consumes(Or(Short(116), c3));
    assert Consumes(Contraction());
  }

  lemma MatchAdvances(k: Classes, s: seq<nat>, p: nat)
    requires p <= |s|
    ensures First(Pattern(k), s, p).Some? ==> p < First(Pattern(k), s, p).value <= |s|
  {
    PatternConsumes(k);
    hide Consumes;
    EndsInRange(Pattern(k), s, p);
    hide Ends;
  }

  /** Where the word that starts at p ends: at the end of the match, or past the one character that
      nothing matches. */
  function WordEnd(k: Classes, s: seq<nat>, p: nat): (r: nat)
    requires p < |s|
    ensures p < r <= |s|
  {
    MatchAdvances(k, s, p);
    First(Pattern(k), s, p).GetOr(p + 1)
  }

  /** The words from p on, as pairs of a start and a length. */
  function Words(k: Classes, s: seq<nat>, p: nat): seq<(nat, nat)>
    requires p <= |s|
    decreases |s| - p
  {
    if p == |s| then [] else [(p, WordEnd(k, s, p) - p)] + Words(k, s, WordEnd(k, s, p))
  }

  /** The stretch of a word, and of several in turn. */
  function Stretch(s: seq<nat>, range: (nat, nat)): seq<nat> {
    if range.0 + range.1 <= |s| then s[range.0..range.0 + range.1] else []
  }

  function Stretches(s: seq<nat>, ranges: seq<(nat, nat)>): seq<nat> {
    if ranges == [] then [] else Stretch(s, ranges[0]) + Stretches(s, ranges[1..])
  }

  /** The words partition the text: none is empty and in order they are all of it. */
  lemma {:induction false} WordsPartition(k: Classes, s: seq<nat>, p: nat)
    requires p <= |s|
    ensures Stretches(s, Words(k, s, p)) == s[p..]
    ensures forall i :: 0 <= i < |Words(k, s, p)| ==> Words(k, s, p)[i].1 > 0
    decreases |s| - p
  {
    hide WordEnd;
    if p < |s| {
      var e := WordEnd(k, s, p);
      WordsPartition(k, s, e);
      assert Words(k, s, p)[1..] == Words(k, s, e);
      assert s[p..e] + s[e..] == s[p..];
    }
  }

  /** Every word ends where the expression has it end, and the next begins there. */
  lemma {:induction false} WordsAre(k: Classes, s: seq<nat>, p: nat)
    requires p <= |s|
    ensures p < |s| ==> |Words(k, s, p)| > 0 && Words(k, s, p)[0].0 == p
    ensures forall i :: 0 <= i < |Words(k, s, p)| ==>
      && Words(k, s, p)[i].0 < |s|
      && Words(k, s, p)[i].0 + Words(k, s, p)[i].1 == WordEnd(k, s, Words(k, s, p)[i].0)
      && (i + 1 < |Words(k, s, p)| ==> Words(k, s, p)[i + 1].0 == Words(k, s, p)[i].0 + Words(k, s, p)[i].1)
    decreases |s| - p
  {
    hide WordEnd;
    if p < |s| {
      var e := WordEnd(k, s, p);
      WordsAre(k, s, e);
      var words := Words(k, s, p);
      assert words == [(p, e - p)] + Words(k, s, e);
      forall i | 0 <= i < |words|
        ensures words[i].0 < |s| && words[i].0 + words[i].1 == WordEnd(k, s, words[i].0)
        ensures i + 1 < |words| ==> words[i + 1].0 == words[i].0 + words[i].1
      {
        if i > 0 {
          assert words[i] == Words(k, s, e)[i - 1];
        }
      }
    }
  }

  // ---- the alternatives -------------------------------------------------------------------------

  lemma FirstShort(x: nat, s: seq<nat>, p: nat)
    ensures First(Short(x), s, p)
         == if At(s, p, Is(QUOTE)) && p + 1 < |s| && LowerAscii(s[p + 1]) == x then Some(p + 2) else None
  {
    FirstThenOne(Is(QUOTE), One(Letter(x)), s, p);
    FirstOne(s, p + 1, Letter(x));
  }

  lemma FirstLong(x: nat, y: nat, s: seq<nat>, p: nat)
    ensures First(Long(x, y), s, p)
         == if At(s, p, Is(QUOTE)) && p + 2 < |s| && LowerAscii(s[p + 1]) == x && LowerAscii(s[p + 2]) == y
            then Some(p + 3) else None
  {
    FirstThenOne(Is(QUOTE), Then(One(Letter(x)), One(Letter(y))), s, p);
    FirstThenOne(Letter(x), One(Letter(y)), s, p + 1);
    FirstOne(s, p + 2, Letter(y));
  }

  predicate ShortTail(c: nat) {
    c == 115 || c == 116 || c == 109 || c == 100
  }

  predicate LongTail(c: nat, d: nat) {
    (c == 114 && d == 101) || (c == 118 && d == 101) || (c == 108 && d == 108)
  }

  lemma FirstContraction(s: seq<nat>, p: nat)
    ensures First(Contraction(), s, p)
         == if At(s, p, Is(QUOTE)) && p + 1 < |s| && ShortTail(LowerAscii(s[p + 1])) then Some(p + 2)
            else if At(s, p, Is(QUOTE)) && p + 2 < |s| && LongTail(LowerAscii(s[p + 1]), LowerAscii(s[p + 2])) then Some(p + 3)
            else None
  {
    hide First;
    FirstShort(115, s, p);
    FirstShort(116, s, p);
    FirstLong(114, 101, s, p);
    FirstLong(118, 101, s, p);
    FirstShort(109, s, p);
    FirstLong(108, 108, s, p);
    FirstShort(100, s, p);
    var r6 := Or(Long(108, 108), Short(100));
    var r5 := Or(Short(109), r6);
    var r4 := Or(Long(118, 101), r5);
    var r3 := Or(Long(114, 101), r4);
    var r2 := Or(Short(116), r3);
    FirstOr(Long(108, 108), Short(100), s, p);
    FirstOr(Short(109), r6, s, p);
    FirstOr(Long(118, 101), r5, s, p);
    FirstOr(Long(114, 101), r4, s, p);
    FirstOr(Short(116), r3, s, p);
    FirstOr(Short(115), r2, s, p);
    hide Short;
    hide Long;
  }

  lemma FirstLetters(k: Classes, s: seq<nat>, p: nat)
    requires p < |s| && Sound(k)
    ensures First(Letters(k), s, p)
         == if s[p] != CR && s[p] != LF && !k.number(s[p]) && (At(s, p, k.letter) || At(s, p + 1, k.letter))
            then Some(RunEnd(s, p + 1, k.letter)) else None
  {
    hide First;
    FirstThenOpt(Lead(k), Plus(k.letter), s, p);
    FirstPlus(k.letter, s, p);
    FirstPlus(k.letter, s, p + 1);
    if At(s, p + 1, k.letter) {
      assert RunEnd(s, p + 1, k.letter) == RunEnd(s, p + 2, k.letter);
    }
  }

  lemma FirstSymbolRun(k: Classes, s: seq<nat>, p: nat)
    requires p <= |s|
    ensures First(Then(One(Other(k)), Then(Star(Other(k)), Star(Newline()))), s, p)
         == if At(s, p, Other(k)) then Some(RunEnd(s, RunEnd(s, p + 1, Other(k)), Newline())) else None
  {
    hide First;
    var tail := Then(Star(Other(k)), Star(Newline()));
    FirstThenOne(Other(k), tail, s, p);
    if At(s, p, Other(k)) {
      var q := RunEnd(s, p + 1, Other(k));
      FirstStar(s, q, Newline());
      FirstAfterRun(Other(k), Star(Newline()), s, p + 1, q);
    }
  }

  lemma FirstSymbols(k: Classes, s: seq<nat>, p: nat)
    requires p < |s| && Sound(k)
    ensures var probe := if s[p] == SPACE then p + 1 else p;
      First(Symbols(k), s, p)
      == if At(s, probe, Other(k)) then Some(RunEnd(s, RunEnd(s, probe, Other(k)), Newline())) else None
  {
    hide First;
    var run := Then(One(Other(k)), Then(Star(Other(k)), Star(Newline())));
    FirstThenOpt(Is(SPACE), run, s, p);
    FirstSymbolRun(k, s, p);
    FirstSymbolRun(k, s, p + 1);
  }

  /** The last line break of the white space from p on, plus one; 0 when there is none. */
  predicate IsLastBreak(k: Classes, s: seq<nat>, p: nat, e: nat, last: nat)
    requires p <= e <= |s|
  {
    if last == 0 then forall i :: p <= i < e ==> !Newline()(s[i])
    else p < last <= e && Newline()(s[last - 1]) && forall i :: last <= i < e ==> !Newline()(s[i])
  }

  lemma FirstLineBreaks(k: Classes, s: seq<nat>, p: nat, last: nat)
    requires p < |s| && Sound(k) && IsLastBreak(k, s, p, RunEnd(s, p, k.space), last)
    ensures First(LineBreaks(k), s, p) == if last > 0 then Some(last) else None
  {
    hide First;
    var e, b := RunEnd(s, p, k.space), Plus(Newline());
    forall i | p <= i <= e && i >= last ensures First(b, s, i).None? {
      FirstPlus(Newline(), s, i);
    }
    if last == 0 {
      NoneAfterRun(k.space, b, s, p);
    } else {
      FirstPlus(Newline(), s, last - 1);
      assert !At(s, last, Newline());
      FirstAfterRun(k.space, b, s, p, last - 1);
    }
  }

  lemma FirstTrailing(k: Classes, s: seq<nat>, p: nat)
    requires p < |s| && k.space(s[p])
    ensures var e := RunEnd(s, p, k.space);
      First(Trailing(k), s, p) == if e == |s| then Some(e) else if e - p > 1 then Some(e - 1) else None
  {
    hide First;
    var e, b := RunEnd(s, p, k.space), NotAhead(NonSpace(k));
    FirstThenOne(k.space, Then(Star(k.space), b), s, p);
    assert e == RunEnd(s, p + 1, k.space);
    forall i | p <= i <= e ensures First(b, s, i) == if i == e < |s| then None else Some(i) {
      FirstNotAhead(NonSpace(k), s, i);
    }
    hide RunEnd;
    if e == |s| {
      FirstAfterRun(k.space, b, s, p + 1, e);
    } else if e - p > 1 {
      FirstAfterRun(k.space, b, s, p + 1, e - 1);
    } else {
      NoneAfterRun(k.space, b, s, p + 1);
    }
  }

  lemma FirstNotAhead(c: Class, s: seq<nat>, p: nat)
    ensures First(NotAhead(c), s, p) == if At(s, p, c) then None else Some(p)
  {
  }

  lemma NoSpaceNoTrailing(k: Classes, s: seq<nat>, p: nat)
    requires p < |s| && !k.space(s[p])
    ensures First(Trailing(k), s, p).None? && First(Plus(k.space), s, p).None?
  {
    FirstThenOne(k.space, Then(Star(k.space), NotAhead(NonSpace(k))), s, p);
    FirstPlus(k.space, s, p);
  }

  /** Which alternative decides. */
  lemma FirstPattern(k: Classes, s: seq<nat>, p: nat)
    ensures First(Pattern(k), s, p)
         == if First(Contraction(), s, p).Some? then First(Contraction(), s, p)
            else if First(Letters(k), s, p).Some? then First(Letters(k), s, p)
            else if At(s, p, k.number) then Some(p + 1)
            else if First(Symbols(k), s, p).Some? then First(Symbols(k), s, p)
            else if First(LineBreaks(k), s, p).Some? then First(LineBreaks(k), s, p)
            else if First(Trailing(k), s, p).Some? then First(Trailing(k), s, p)
            else First(Plus(k.space), s, p)
  {
    FirstOne(s, p, k.number);
    hide First;
    hide Contraction;
    hide Letters;
    hide Symbols;
    hide LineBreaks;
    hide Trailing;
    hide Plus;
    var r6 := Or(Trailing(k), Plus(k.space));
    var r5 := Or(LineBreaks(k), r6);
    var r4 := Or(Symbols(k), r5);
    var r3 := Or(One(k.number), r4);
    var r2 := Or(Letters(k), r3);
    FirstOr(Contraction(), r2, s, p);
    FirstOr(Letters(k), r3, s, p);
    FirstOr(One(k.number), r4, s, p);
    FirstOr(Symbols(k), r5, s, p);
    FirstOr(LineBreaks(k), r6, s, p);
    FirstOr(Trailing(k), Plus(k.space), s, p);
  }

  // ---- the alternatives, written out --------------------------------------------------------------

  /** A quote and s, t, m or d, or a quote and re, ve or ll, in either case. */
  lemma ContractionIs(s: seq<nat>, p: nat, c: nat, d: nat)
    requires c == if p + 1 < |s| then (if 65 <= s[p + 1] <= 90 then s[p + 1] + 32 else s[p + 1]) else 0
    requires d == if p + 2 < |s| then (if 65 <= s[p + 2] <= 90 then s[p + 2] + 32 else s[p + 2]) else 0
    ensures First(Contraction(), s, p)
      == if p < |s| && s[p] == 39 && (c == 115 || c == 116 || c == 109 || c == 100) then Some(p + 2)
         else if p < |s| && s[p] == 39 && ((c == 114 && d == 101) || (c == 118 && d == 101) || (c == 108 && d == 108)) then Some(p + 3)
         else None
  {
    FirstContraction(s, p);
  }

  /** Letters up to `e`, behind at most one character that is no line break and no number. */
  lemma LettersAre(k: Classes, s: seq<nat>, p: nat, e: nat)
    requires Sound(k) && p < e <= |s|
    requires (forall i :: p < i < e ==> k.letter(s[i])) && (e < |s| ==> !k.letter(s[e]))
    ensures First(Letters(k), s, p)
      == if s[p] != 13 && s[p] != 10 && !k.number(s[p]) && (k.letter(s[p]) || p + 1 < e) then Some(e) else None
  {
    FirstLetters(k, s, p);
    RunEndIs(s, p + 1, e, k.letter);
  }

  /** At most one space, characters that are no space, letter or number up to `q`, and line breaks up to `e`. */
  lemma SymbolsAre(k: Classes, s: seq<nat>, p: nat, q: nat, e: nat)
    requires Sound(k) && p < |s| && (if s[p] == 32 then p + 1 else p) <= q <= e <= |s|
    requires forall i :: (if s[p] == 32 then p + 1 else p) <= i < q ==> !k.space(s[i]) && !k.letter(s[i]) && !k.number(s[i])
    requires q < |s| ==> k.space(s[q]) || k.letter(s[q]) || k.number(s[q])
    requires (forall i :: q <= i < e ==> s[i] == 13 || s[i] == 10) && (e < |s| ==> s[e] != 13 && s[e] != 10)
    ensures First(Symbols(k), s, p) == if (if s[p] == 32 then p + 1 else p) < q then Some(e) else None
  {
    FirstSymbols(k, s, p);
    var probe := if s[p] == SPACE then p + 1 else p;
    RunEndIs(s, probe, q, Other(k));
    RunEndIs(s, q, e, Newline());
  }

  /** White space up to the last line break in it, which ends at `last`; 0 stands for none. */
  lemma LineBreaksAre(k: Classes, s: seq<nat>, p: nat, e: nat, last: nat)
    requires Sound(k) && p < |s| && p <= e <= |s|
    requires (forall i :: p <= i < e ==> k.space(s[i])) && (e < |s| ==> !k.space(s[e]))
    requires last == 0 || (p < last <= e && (s[last - 1] == 13 || s[last - 1] == 10))
    requires forall i :: (if last == 0 then p else last) <= i < e ==> s[i] != 13 && s[i] != 10
    ensures First(LineBreaks(k), s, p) == if last > 0 then Some(last) else None
  {
    RunEndIs(s, p, e, k.space);
    FirstLineBreaks(k, s, p, last);
  }

  /** White space up to `e`: all of it at the end of the text, else all but the last if there is more than one. */
  lemma TrailingIs(k: Classes, s: seq<nat>, p: nat, e: nat)
    requires p < e <= |s| && (forall i :: p <= i < e ==> k.space(s[i])) && (e < |s| ==> !k.space(s[e]))
    ensures First(Trailing(k), s, p) == if e == |s| then Some(e) else if e - p > 1 then Some(e - 1) else None
    ensures First(Plus(k.space), s, p) == Some(e)
  {
    RunEndIs(s, p, e, k.space);
    FirstTrailing(k, s, p);
    FirstPlus(k.space, s, p);
    RunEndIs(s, p + 1, e, k.space);
  }

  lemma {:induction false} RunEndIs(s: seq<nat>, p: nat, e: nat, c: Class)
    requires p <= e <= |s| && (forall i :: p <= i < e ==> c(s[i])) && (e < |s| ==> !c(s[e]))
    ensures RunEnd(s, p, c) == e
    decreases e - p
  {
    if p < e {
      RunEndIs(s, p + 1, e, c);
    }
  }

  /** The order of the alternatives, and what a word is when it is one of them. */
  lemma WordEndIs(k: Classes, s: seq<nat>, p: nat)
    requires Sound(k) && p < |s|
    ensures First(Contraction(), s, p).Some? ==> Some(WordEnd(k, s, p)) == First(Contraction(), s, p)
    ensures First(Contraction(), s, p).None? && First(Letters(k), s, p).Some? ==> Some(WordEnd(k, s, p)) == First(Letters(k), s, p)
    ensures First(Contraction(), s, p).None? && k.number(s[p]) ==> WordEnd(k, s, p) == p + 1
    ensures First(Contraction(), s, p).None? && First(Letters(k), s, p).None? && !k.number(s[p]) ==>
      && (First(Symbols(k), s, p).Some? ==> Some(WordEnd(k, s, p)) == First(Symbols(k), s, p))
      && (First(Symbols(k), s, p).None? && First(LineBreaks(k), s, p).Some? ==> Some(WordEnd(k, s, p)) == First(LineBreaks(k), s, p))
      && (First(Symbols(k), s, p).None? && First(LineBreaks(k), s, p).None? && First(Trailing(k), s, p).Some? ==>
            Some(WordEnd(k, s, p)) == First(Trailing(k), s, p))
      && (First(Symbols(k), s, p).None? && First(LineBreaks(k), s, p).None? && First(Trailing(k), s, p).None? ==>
            Some(WordEnd(k, s, p)) == First(Plus(k.space), s, p))
  {
    hide First;
    hide Contraction;
    hide Letters;
    hide Symbols;
    hide LineBreaks;
    hide Trailing;
    hide Pattern;
    hide Plus;
    FirstPattern(k, s, p);
    FirstLetters(k, s, p);
    EveryCharacterMatches(k, s, p);
  }

  /** Some alternative matches at every character, so the scan never has to step over one. */
  lemma EveryCharacterMatches(k: Classes, s: seq<nat>, p: nat)
    requires p < |s| && Sound(k)
    ensures First(Pattern(k), s, p).Some?
  {
    hide First;
    hide Contraction;
    hide Letters;
    hide Symbols;
    hide LineBreaks;
    hide Trailing;
    hide Pattern;
    FirstPattern(k, s, p);
    FirstLetters(k, s, p);
    FirstSymbols(k, s, p);
    if k.space(s[p]) {
      FirstPlus(k.space, s, p);
    }
  }

  // ---- the scan ---------------------------------------------------------------------------------

  function CptAt(s: seq<nat>, p: nat): nat {
    if p < |s| then s[p] else OUT_OF_RANGE
  }

  method SkipRun(s: seq<nat>, c: Class, p: nat) returns (r: nat)
    requires p <= |s|
    ensures r == RunEnd(s, p, c)
  {
    r := p;
    while At(s, r, c)
      invariant p <= r <= |s| && RunEnd(s, r, c) == RunEnd(s, p, c)
      decreases |s| - r
    {
      r := r + 1;
    }
  }

  method SkipNewlines(s: seq<nat>, p: nat) returns (r: nat)
    requires p <= |s|
    ensures r == RunEnd(s, p, Newline())
  {
    r := p;
    while CptAt(s, r) == CR || CptAt(s, r) == LF
      invariant p <= r <= |s| && RunEnd(s, r, Newline()) == RunEnd(s, p, Newline())
      decreases |s| - r
    {
      r := r + 1;
    }
  }

  /** The white space from p on: its length and the place after its last line break. */
  method ScanSpace(k: Classes, s: seq<nat>, p: nat) returns (ws: nat, lastNl: nat)
    requires p < |s| && Sound(k)
    ensures p + ws == RunEnd(s, p, k.space) && IsLastBreak(k, s, p, p + ws, lastNl)
  {
    ws, lastNl := 0, 0;
    while At(s, p + ws, k.space)
      invariant p + ws <= |s| && RunEnd(s, p + ws, k.space) == RunEnd(s, p, k.space)
      invariant IsLastBreak(k, s, p, p + ws, lastNl)
      decreases |s| - ws
    {
      var cw := CptAt(s, p + ws);
      if cw == CR || cw == LF {
        lastNl := p + ws + 1;
      }
      ws := ws + 1;
    }
  }

  /** Finds the end of the word at `at`. */
  method NextWord(k: Classes, s: seq<nat>, at: nat) returns (pos: nat)
    requires at < |s| && Sound(k) && forall i :: 0 <= i < |s| ==> s[i] != OUT_OF_RANGE
    ensures pos == WordEnd(k, s, at)
  {
    hide First;
    hide Contraction;
    hide Letters;
    hide Symbols;
    hide LineBreaks;
    hide Trailing;
    hide Pattern;
    hide RunEnd;
    FirstPattern(k, s, at);
    FirstContraction(s, at);
    pos := at;
    var c := CptAt(s, pos);
    if c == QUOTE && pos + 1 < |s| {
      var c1 := LowerAscii(CptAt(s, pos + 1));
      if ShortTail(c1) {
        return pos + 2;
      }
      if pos + 2 < |s| {
        var c2 := LowerAscii(CptAt(s, pos + 2));
        if LongTail(c1, c2) {
          return pos + 3;
        }
      }
    }
    FirstLetters(k, s, at);
    if !(c == CR || c == LF || At(s, pos, k.number)) {
      if At(s, pos, k.letter) || At(s, pos + 1, k.letter) {
        pos := SkipRun(s, k.letter, pos + 1);
        return;
      }
    }
    if At(s, pos, k.number) {
      return pos + 1;
    }
    FirstSymbols(k, s, at);
    var leadSpace := c == SPACE;
    var probe := if leadSpace then pos + 1 else pos;
    if At(s, probe, Other(k)) {
      pos := pos + if leadSpace then 1 else 0;
      pos := SkipRun(s, Other(k), pos);
      pos := SkipNewlines(s, pos);
      return;
    }
    var ws, lastNl := ScanSpace(k, s, pos);
    FirstLineBreaks(k, s, at, lastNl);
    if lastNl > 0 {
      return lastNl;
    }
    RunOfNone(s, at, k.space);
    if ws > 0 {
      FirstTrailing(k, s, at);
      FirstPlus(k.space, s, at);
    } else {
      NoSpaceNoTrailing(k, s, at);
    }
    if ws > 1 && CptAt(s, pos + ws) != OUT_OF_RANGE {
      return pos + (ws - 1);
    }
    if ws > 0 {
      return pos + ws;
    }
    pos := pos + 1;
  }

  lemma RunOfNone(s: seq<nat>, p: nat, c: Class)
    requires p < |s|
    ensures RunEnd(s, p, c) == if c(s[p]) then RunEnd(s, p + 1, c) else p
    ensures c(s[p]) ==> RunEnd(s, p, c) > p
  {
  }

  /** Cuts the text into the words the expression matches, one after the other. */
  method QwenSplit(k: Classes, s: seq<nat>) returns (out: seq<(nat, nat)>)
    requires Sound(k) && forall i :: 0 <= i < |s| ==> s[i] != OUT_OF_RANGE
    ensures out == Words(k, s, 0)
  {
    hide WordEnd;
    hide Words;
    out := [];
    var prev, pos := 0, 0;
    while pos < |s|
      invariant prev == pos <= |s| && out + Words(k, s, pos) == Words(k, s, 0)
    {
      WordsStep(k, s, pos, out);
      pos := NextWord(k, s, pos);
      if pos > prev {
        out := out + [(prev, pos - prev)];
      }
      prev := pos;
    }
    NoWords(k, s, out);
  }

  lemma WordsStep(k: Classes, s: seq<nat>, p: nat, out: seq<(nat, nat)>)
    requires p < |s|
    ensures out + Words(k, s, p) == out + [(p, WordEnd(k, s, p) - p)] + Words(k, s, WordEnd(k, s, p))
  {
    hide WordEnd;
    var rest := Words(k, s, WordEnd(k, s, p));
    assert out + ([(p, WordEnd(k, s, p) - p)] + rest) == out + [(p, WordEnd(k, s, p) - p)] + rest;
  }

  lemma NoWords(k: Classes, s: seq<nat>, out: seq<(nat, nat)>)
    ensures out + Words(k, s, |s|) == out
  {
  }
}
