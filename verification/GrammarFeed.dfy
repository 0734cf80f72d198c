/**
 * Feeding bytes to the automaton. Code points may be split over several feeds; feeding a text in
 * pieces leads to the same state as feeding it whole.
 */
module GrammarFeed {
  import opened Results
  import opened Arith
  import opened GrammarRules
  import opened GrammarNullable
  import opened GrammarLeftRecursion
  import opened GrammarAutomaton

  const WORD: nat := 0x1_0000_0000

  /** A code point still `remain` bytes short. A negative count marks invalid bytes. */
  datatype Partial = Partial(value: nat, remain: int)

  datatype Decoded = Decoded(cpts: seq<nat>, partial: Partial)

  datatype State = State(stacks: seq<Stack>, partial: Partial)

  const BAD := Decoded([0], Partial(0, -1))

  /** The length a lead byte announces, by its upper half; 0 for a continuation byte. */
  function LeadLength(first: byte): nat {
    if first / 16 < 8 then 1
    else if first / 16 < 12 then 0
    else if first / 16 < 14 then 2
    else if first / 16 == 14 then 3
    else 4
  }

  /** The payload of a lead byte that announces `more` further bytes. */
  function LeadPayload(first: byte, more: nat): nat
    requires more <= 3
  {
    first % Pow2(7 - more)
  }

  function Shifted(value: nat, b: byte): nat {
    (value * 64 + b % 64) % WORD
  }

  function Before(cpt: nat, d: Decoded): Decoded {
    if d.partial.remain < 0 then d else d.(cpts := [cpt] + d.cpts)
  }

  /**
   * The code points of `src`, continuing one of which `remain` bytes are missing. Continuation
   * bytes are checked only for a code point carried over from an earlier feed.
   */
  function DecodeFrom(src: seq<byte>, value: nat, remain: nat, carried: bool): Decoded {
    if src == [] then Decoded([], Partial(value, remain))
    else if remain > 0 then
      if carried && src[0] / 64 != 2 then BAD
      else
        var v := Shifted(value, src[0]);
        if remain == 1 then Before(v, DecodeFrom(src[1..], v, 0, false))
        else DecodeFrom(src[1..], v, remain - 1, carried)
    else if LeadLength(src[0]) == 0 then BAD
    else
      var more := LeadLength(src[0]) - 1;
      var v := LeadPayload(src[0], more);
      if more == 0 then Before(v, DecodeFrom(src[1..], v, 0, false))
      else DecodeFrom(src[1..], v, more, false)
  }

  /** The states the automaton hands out never carry a negative count. */
  function Decode(src: seq<byte>, partial: Partial): Decoded
    requires partial.remain >= 0
  {
    DecodeFrom(src, partial.value, partial.remain, true)
  }

  function BeforeAll(cpts: seq<nat>, d: Decoded): Decoded {
    if d.partial.remain < 0 then d else d.(cpts := cpts + d.cpts)
  }

  lemma BeforeStep(cpts: seq<nat>, v: nat, d: Decoded)
    ensures BeforeAll(cpts, Before(v, d)) == BeforeAll(cpts + [v], d)
  {
    assert d.partial.remain >= 0 ==> cpts + ([v] + d.cpts) == cpts + [v] + d.cpts;
  }

  lemma {:induction false} BadIsBad(src: seq<byte>, value: nat, remain: nat, carried: bool)
    ensures var d := DecodeFrom(src, value, remain, carried);
      d.partial.remain < 0 ==> d == BAD
    decreases |src|
  {
    if src != [] {
      if remain > 0 {
        if remain == 1 {
          BadIsBad(src[1..], Shifted(value, src[0]), 0, false);
        } else {
          BadIsBad(src[1..], Shifted(value, src[0]), remain - 1, carried);
        }
      } else if LeadLength(src[0]) > 0 {
        var more := LeadLength(src[0]) - 1;
        BadIsBad(src[1..], LeadPayload(src[0], more), more, false);
      }
    }
  }

  method DecodeUtf8(src: seq<byte>, partial: Partial) returns (cpts: seq<nat>, rest: Partial)
    requires partial.remain >= 0
    ensures Decoded(cpts, rest) == Decode(src, partial)
  {
    hide Shifted;
    hide LeadPayload;
    cpts := [];
    var i, value, remain := 0, partial.value, partial.remain;
    while i < |src| && remain > 0
      invariant i <= |src| && 0 <= remain <= partial.remain
      invariant partial.remain == 0 ==> i == 0 && value == partial.value
      invariant remain == 0 && partial.remain > 0 ==>
        Decode(src, partial) == Before(value, DecodeFrom(src[i..], value, 0, false))
      invariant remain > 0 ==> Decode(src, partial) == DecodeFrom(src[i..], value, remain, true)
    {
      var b := src[i];
      assert src[i..][0] == b && src[i..][1..] == src[i + 1..];
      if b / 64 != 2 {
        return [0], Partial(0, -1);
      }
      value := Shifted(value, b);
      i := i + 1;
      remain := remain - 1;
    }
    if partial.remain > 0 && remain == 0 {
      cpts := cpts + [value];
    }
    if i < |src| {
      assert src[0..] == src;
      FreshIsUnchecked(src, partial.value);
    }
    while i < |src|
      invariant i <= |src|
      invariant i < |src| ==> Decode(src, partial) == BeforeAll(cpts, DecodeFrom(src[i..], value, 0, false))
      invariant i == |src| ==> Decode(src, partial) == Decoded(cpts, Partial(value, remain))
    {
      var first := src[i];
      assert src[i..][0] == first && src[i..][1..] == src[i + 1..];
      remain := LeadLength(first) - 1;
      if remain < 0 {
        return [0], Partial(0, remain);
      }
      value := LeadPayload(first, remain);
      i := i + 1;
      ghost var want := Decode(src, partial);
      while i < |src| && remain > 0
        invariant i <= |src| && 0 <= remain <= 3
        invariant remain == 0 ==> want == BeforeAll(cpts, Before(value, DecodeFrom(src[i..], value, 0, false)))
        invariant remain > 0 ==> want == BeforeAll(cpts, DecodeFrom(src[i..], value, remain, false))
      {
        assert src[i..][0] == src[i] && src[i..][1..] == src[i + 1..];
        value := Shifted(value, src[i]);
        i := i + 1;
        remain := remain - 1;
      }
      if remain == 0 {
        BeforeStep(cpts, value, DecodeFrom(src[i..], value, 0, false));
        cpts := cpts + [value];
      }
      assert i == |src| ==> src[i..] == [];
    }
    rest := Partial(value, remain);
  }

  /** Nothing is carried over when no byte is missing. */
  lemma FreshIsUnchecked(src: seq<byte>, value: nat)
    requires src != []
    ensures forall v :: DecodeFrom(src, value, 0, true) == DecodeFrom(src, v, 0, false)
  {
  }

  // ---- sequences split between feeds ------------------------------------------------------------

  /** What decodes with its continuation bytes checked decodes the same unchecked. */
  lemma {:induction false} CheckedImpliesUnchecked(src: seq<byte>, value: nat, remain: nat)
    requires DecodeFrom(src, value, remain, true).partial.remain >= 0
    ensures DecodeFrom(src, value, remain, false) == DecodeFrom(src, value, remain, true)
    decreases |src|
  {
    if src != [] && remain > 1 {
      CheckedImpliesUnchecked(src[1..], Shifted(value, src[0]), remain - 1);
    }
  }

  /** One byte: which ones end the decoding, and what the others leave. */
  lemma DecodeByte(src: seq<byte>, value: nat, remain: nat, carried: bool)
    requires src != []
    ensures var d := DecodeFrom(src, value, remain, carried);
      var b, rest := src[0], src[1..];
      if remain > 0 && carried && !(0x80 <= b < 0xC0) then d.partial.remain == -1
      else if remain > 0 then
        var next := DecodeFrom(rest, (value * 64 + b % 64) % 0x1_0000_0000, remain - 1, carried && remain > 1);
        && d.partial == next.partial
        && (d.partial.remain >= 0 ==> d.cpts == (if remain == 1 then [(value * 64 + b % 64) % 0x1_0000_0000] else []) + next.cpts)
      else if b < 0x80 then
        var next := DecodeFrom(rest, b, 0, false);
        d.partial == next.partial && (d.partial.remain >= 0 ==> d.cpts == [b as nat] + next.cpts)
      else if b < 0xC0 then d.partial.remain == -1
      else if b < 0xE0 then d == DecodeFrom(rest, b - 0xC0, 1, false)
      else if b < 0xF0 then d == DecodeFrom(rest, b - 0xE0, 2, false)
      else d == DecodeFrom(rest, b - 0xF0, 3, false)
  {
    LeadByteIs(src[0]);
    hide LeadLength;
    hide LeadPayload;
  }

  lemma LeadByteIs(b: byte)
    ensures LeadLength(b) == if b < 0x80 then 1 else if b < 0xC0 then 0 else if b < 0xE0 then 2 else if b < 0xF0 then 3 else 4
    ensures b < 0x80 ==> LeadPayload(b, 0) == b
    ensures 0xC0 <= b < 0xE0 ==> LeadPayload(b, 1) == b - 0xC0
    ensures 0xE0 <= b < 0xF0 ==> LeadPayload(b, 2) == b - 0xE0
    ensures 0xF0 <= b ==> LeadPayload(b, 3) == b - 0xF0
  {
    assert Pow2(7) == 128 && Pow2(5) == 32 && Pow2(4) == 16;
    assert Pow2(6) == 64;
  }

  /** Decoding `a` and then `b` from where it left off is decoding them together. */
  lemma {:induction false} DecodeConcat(a: seq<byte>, b: seq<byte>, value: nat, remain: nat, carried: bool)
    requires DecodeFrom(a, value, remain, carried).partial.remain >= 0
    requires var p := DecodeFrom(a, value, remain, carried).partial;
      DecodeFrom(b, p.value, p.remain, true).partial.remain >= 0
    ensures var d := DecodeFrom(a, value, remain, carried);
      DecodeFrom(a + b, value, remain, carried) == BeforeAll(d.cpts, DecodeFrom(b, d.partial.value, d.partial.remain, true))
    decreases |a|
  {
    hide Shifted;
    hide LeadPayload;
    if a == [] {
      assert a + b == b;
      assert carried || DecodeFrom(b, value, remain, false) == DecodeFrom(b, value, remain, true) by {
        CheckedImpliesUnchecked(b, value, remain);
      }
    } else {
      assert (a + b)[0] == a[0] && (a + b)[1..] == a[1..] + b;
      if remain > 1 {
        DecodeConcat(a[1..], b, Shifted(value, a[0]), remain - 1, carried);
      } else if remain == 1 {
        DecodeConcat(a[1..], b, Shifted(value, a[0]), 0, false);
      } else {
        var more := LeadLength(a[0]) - 1;
        DecodeConcat(a[1..], b, LeadPayload(a[0], more), more, false);
      }
    }
  }

  /** The unfinished code points that decoding can leave. */
  predicate Unfinished(p: Partial) {
    && 0 <= p.remain <= 3
    && (p.remain == 3 ==> p.value < 0x10) && (p.remain == 2 ==> p.value < 0x400) && (p.remain == 1 ==> p.value < 0x1_0000)
  }

  lemma {:induction false} DecodeLeavesUnfinished(src: seq<byte>, value: nat, remain: nat, carried: bool)
    requires Unfinished(Partial(value, remain))
    ensures var p := DecodeFrom(src, value, remain, carried).partial;
      p.remain >= 0 ==> Unfinished(p)
    decreases |src|
  {
    if src != [] {
      if remain > 1 {
        DecodeLeavesUnfinished(src[1..], Shifted(value, src[0]), remain - 1, carried);
      } else if remain == 1 {
        DecodeLeavesUnfinished(src[1..], Shifted(value, src[0]), 0, false);
      } else if LeadLength(src[0]) > 0 {
        var more := LeadLength(src[0]) - 1;
        assert Pow2(4) == 16 && Pow2(5) == 32;
        DecodeLeavesUnfinished(src[1..], LeadPayload(src[0], more), more, false);
      }
    }
  }

  // ---- sets and unfinished code points ------------------------------------------------------------

  /** Some member of the set has an end on the right side of each bound. */
  predicate Overlaps(r: Rule, i: nat, low: nat, high: nat)
    requires i < |r|
    decreases |r| - i
  {
    var n := NextMember(r, i);
    || (if i + 1 < |r| && r[i + 1].kind == RngUpper then r[i].value <= high && low <= r[i + 1].value
        else low <= r[i].value <= high)
    || (n < |r| && r[n].kind == CharAlt && Overlaps(r, n, low, high))
  }

  function Span(remain: nat): (r: nat)
    ensures r > 0
  {
    Pow2(6 * remain)
  }

  /** The least code point that is not an overlong form of a sequence with payload `value`. */
  function LowEnd(p: Partial): nat
    requires p.remain >= 0
  {
    var low := (p.value * Span(p.remain)) % WORD;
    if low == 0 && p.remain == 2 then 0x800
    else if low == 0 && p.remain == 3 then 0x1_0000
    else low
  }

  /** The shifted payload ends in zeros, so setting its low bits adds them. */
  function HighEnd(p: Partial): nat
    requires p.remain >= 0
  {
    (p.value * Span(p.remain)) % WORD + Span(p.remain) - 1
  }

  /** Whether the set at `i` may still be met by the unfinished code point `p`. */
  predicate MayMatch(r: Rule, i: nat, p: Partial)
    requires i < |r| && p.remain >= 0
  {
    !(p.remain == 1 && p.value < 2) && Overlaps(r, i, LowEnd(p), HighEnd(p)) == (r[i].kind == Char)
  }

  method MatchPartialChar(r: Rule, i: nat, p: Partial, ghost n: nat) returns (b: bool)
    requires WellFormedRule(r, n) && i < |r| && OpensSet(r[i]) && p.remain >= 0
    ensures b == MayMatch(r, i, p)
  {
    if p.remain == 1 && p.value < 2 {
      return false;
    }
    var low, high := LowEnd(p), HighEnd(p);
    var positive := r[i].kind == Char;
    var at := i;
    while true
      invariant i <= at < |r| && (OpensSet(r[at]) || r[at].kind == CharAlt)
      invariant Overlaps(r, i, low, high) <==> Overlaps(r, at, low, high)
      decreases |r| - at
    {
      if r[at + 1].kind == RngUpper {
        if r[at].value <= high && low <= r[at + 1].value {
          return positive;
        }
        at := at + 2;
      } else {
        if low <= r[at].value <= high {
          return positive;
        }
        at := at + 1;
      }
      if r[at].kind != CharAlt {
        break;
      }
    }
    b := !positive;
  }

  /** A member that covers a code point between the bounds overlaps them. */
  lemma {:induction false} CoversOverlaps(r: Rule, i: nat, c: nat, low: nat, high: nat)
    requires i < |r| && low <= c <= high && Covers(r, i, c)
    ensures Overlaps(r, i, low, high)
    decreases |r| - i
  {
    var n := NextMember(r, i);
    if n < |r| && r[n].kind == CharAlt && Covers(r, n, c) {
      CoversOverlaps(r, n, c, low, high);
    }
  }

  /** The set has no range that is upside down. */
  predicate OrderedRanges(r: Rule, i: nat)
    requires i < |r|
    decreases |r| - i
  {
    var n := NextMember(r, i);
    && (i + 1 < |r| && r[i + 1].kind == RngUpper ==> r[i].value <= r[i + 1].value)
    && (n < |r| && r[n].kind == CharAlt ==> OrderedRanges(r, n))
  }

  /** Conversely, if no range is upside down, an overlap contains a code point of the set. */
  lemma {:induction false} OverlapsCovers(r: Rule, i: nat, low: nat, high: nat) returns (c: nat)
    requires i < |r| && low <= high && Overlaps(r, i, low, high) && OrderedRanges(r, i)
    ensures low <= c <= high && Covers(r, i, c)
    decreases |r| - i
  {
    var n := NextMember(r, i);
    if i + 1 < |r| && r[i + 1].kind == RngUpper && r[i].value <= high && low <= r[i + 1].value {
      c := Max(low, r[i].value);
    } else if !(i + 1 < |r| && r[i + 1].kind == RngUpper) && low <= r[i].value <= high {
      c := r[i].value;
    } else {
      c := OverlapsCovers(r, n, low, high);
    }
  }

  lemma EndsInOrder(p: Partial)
    requires p.remain >= 0
    ensures LowEnd(p) <= HighEnd(p)
  {
    if p.remain == 2 || p.remain == 3 {
      Pow2Values();
      Pow2Monotone(11, 12);
      Pow2Add(8, 3);
      assert Pow2(3) == 8;
      Pow2Monotone(16, 18);
      Pow2Monotone(12, 18);
      assert Pow2(12) == 2 * Pow2(11);
    }
  }

  /** The code points between the ends are those that begin with the payload and are not overlong. */
  lemma BetweenEnds(p: Partial, c: nat)
    requires Unfinished(p) && p.remain > 0
    ensures LowEnd(p) <= c <= HighEnd(p) <==>
      && c / Pow2(6 * p.remain) == p.value
      && (p.remain == 2 ==> c >= 0x800) && (p.remain == 3 ==> c >= 0x1_0000)
  {
    hide Pow2;
    EndsAre(p);
    hide LowEnd;
    hide HighEnd;
    QuotientBetween(p.value, c, Pow2(6 * p.remain));
  }

  lemma EndsAre(p: Partial)
    requires Unfinished(p) && p.remain > 0
    ensures var u := Pow2(6 * p.remain);
      && HighEnd(p) == p.value * u + u - 1
      && LowEnd(p) == (if p.value > 0 then p.value * u else if p.remain == 1 then 0 else if p.remain == 2 then 0x800 else 0x1_0000)
      && u == (if p.remain == 1 then 0x40 else if p.remain == 2 then 0x1000 else 0x4_0000)
  {
    hide Pow2;
    SpanValues();
    assert Pow2(6 * p.remain) == Span(p.remain);
    hide Span;
  }

  lemma QuotientBetween(v: nat, c: nat, u: nat)
    requires u > 0
    ensures v * u <= c <= v * u + u - 1 <==> c / u == v
  {
    var q := c / u;
    assert c == q * u + c % u;
    if v < q {
      MulMonotone(v + 1, q, u);
      NextProduct(v, u);
    } else if q < v {
      MulMonotone(q + 1, v, u);
      NextProduct(q, u);
    }
  }

  /**
   * What the partial test means. For a positive set it says that some code point the bytes can
   * still become is in the set; for a negated one, that every such code point is.
   */
  lemma MayMatchMeaning(r: Rule, i: nat, p: Partial)
    requires i < |r| && OpensSet(r[i]) && OrderedRanges(r, i)
    requires p.remain >= 0 && !(p.remain == 1 && p.value < 2)
    ensures r[i].kind == Char ==>
      (MayMatch(r, i, p) <==> exists c: nat :: LowEnd(p) <= c <= HighEnd(p) && Accepts(r, i, c))
    ensures r[i].kind == CharNot ==>
      (MayMatch(r, i, p) <==> forall c: nat :: LowEnd(p) <= c <= HighEnd(p) ==> Accepts(r, i, c))
  {
    EndsInOrder(p);
    var low, high := LowEnd(p), HighEnd(p);
    if Overlaps(r, i, low, high) {
      var c := OverlapsCovers(r, i, low, high);
      assert Accepts(r, i, c) <==> r[i].kind == Char;
    }
    forall c: nat | low <= c <= high && (Accepts(r, i, c) <==> r[i].kind == Char) ensures Overlaps(r, i, low, high) {
      CoversOverlaps(r, i, c, low, high);
    }
  }

  // ---- feeding ------------------------------------------------------------------------------------

  ghost predicate IsFeedState(g: Grammar, s: State) {
    IsState(g, s.stacks) && Unfinished(s.partial)
  }

  /** Some stack may still be met by the unfinished code point. */
  ghost predicate SomeMayMatch(g: Grammar, stacks: seq<Stack>, p: Partial)
    requires IsState(g, stacks) && p.remain >= 0
  {
    exists i :: 0 <= i < |stacks| && TopMayMatch(g, stacks[i], p)
  }

  ghost predicate TopMayMatch(g: Grammar, s: Stack, p: Partial)
    requires OnSymbols(g, s) && p.remain >= 0
  {
    s != [] && MayMatch(g.rules[s[|s| - 1].rule], s[|s| - 1].at, p)
  }

  /** The state after `bytes`, or nothing if they cannot come next. */
  ghost function Fed(g: Grammar, s: State, bytes: seq<byte>): (r: Option<State>)
    requires Valid(g) && IsFeedState(g, s)
    ensures r.Some? ==> IsFeedState(g, r.value)
  {
    DecodeLeavesUnfinished(bytes, s.partial.value, s.partial.remain, true);
    var d := Decode(bytes, s.partial);
    var stacks := AcceptAll(g, s.stacks, d.cpts);
    if bytes == [] || (d.cpts != [] && stacks == []) || d.partial.remain < 0 then None
    else if d.partial.remain > 0 && !SomeMayMatch(g, stacks, d.partial) then None
    else Some(State(stacks, d.partial))
  }

  /** Once no stack is left, none comes back. */
  lemma {:induction false} EmptyStaysEmpty(g: Grammar, w: seq<nat>)
    requires Valid(g)
    ensures AcceptAll(g, [], w) == []
    decreases |w|
  {
    if w != [] {
      EmptyStaysEmpty(g, w[1..]);
    }
  }

  lemma {:induction false} AcceptAllConcat(g: Grammar, stacks: seq<Stack>, a: seq<nat>, b: seq<nat>)
    requires Valid(g) && IsState(g, stacks)
    ensures AcceptAll(g, stacks, a + b) == AcceptAll(g, AcceptAll(g, stacks, a), b)
    decreases |a|
  {
    hide Accept;
    hide IsState;
    if a == [] {
      assert a + b == b;
    } else {
      AcceptStep(g, stacks, a + b);
      AcceptStep(g, stacks, a);
      assert (a + b)[1..] == a[1..] + b;
      AcceptAllConcat(g, Accept(g, stacks, a[0]), a[1..], b);
    }
  }

  lemma AcceptStep(g: Grammar, stacks: seq<Stack>, w: seq<nat>)
    requires Valid(g) && IsState(g, stacks) && w != []
    ensures forall i :: 0 <= i < |stacks| ==> OnSymbols(g, stacks[i])
    ensures IsState(g, Accept(g, stacks, w[0]))
    ensures AcceptAll(g, stacks, w) == AcceptAll(g, Accept(g, stacks, w[0]), w[1..])
  {
    AcceptIsState(g, stacks, w[0]);
  }

  /** Feeding in pieces leads where feeding at once does, wherever the text is cut. */
  lemma FeedConcat(g: Grammar, s: State, a: seq<byte>, b: seq<byte>)
    requires Valid(g) && IsFeedState(g, s)
    requires Fed(g, s, a).Some? && Fed(g, Fed(g, s, a).value, b).Some?
    ensures Fed(g, s, a + b) == Fed(g, Fed(g, s, a).value, b)
  {
    var d := Decode(a, s.partial);
    var e := Decode(b, d.partial);
    DecodeConcat(a, b, s.partial.value, s.partial.remain, true);
    AcceptAllConcat(g, s.stacks, d.cpts, e.cpts);
    if AcceptAll(g, s.stacks, d.cpts) == [] {
      EmptyStaysEmpty(g, e.cpts);
    }
  }

  lemma NothingAccepted(g: Grammar, stacks: seq<Stack>)
    requires Valid(g) && IsState(g, stacks)
    ensures AcceptAll(g, stacks, []) == stacks
  {
  }

  method Feed(g: Grammar, s: State, bytes: seq<byte>) returns (r: Option<State>)
    requires Valid(g) && IsFeedState(g, s)
    ensures r == Fed(g, s, bytes)
  {
    hide Fed;
    hide DecodeFrom;
    hide MayMatch;
    hide Accept;
    hide AcceptAll;
    FedIs(g, s, bytes);
    NothingAccepted(g, s.stacks);
    if bytes == [] {
      return None;
    }
    var cpts, partial := DecodeUtf8(bytes, s.partial);
    var cur := s.stacks;
    for i := 0 to |cpts|
      invariant IsState(g, cur)
      invariant AcceptAll(g, s.stacks, cpts) == AcceptAll(g, cur, cpts[i..])
      invariant i > 0 ==> cur != []
    {
      AcceptStep(g, cur, cpts[i..]);
      assert cpts[i..][1..] == cpts[i + 1..];
      cur := AcceptChar(g, cur, cpts[i]);
      if cur == [] {
        EmptyStaysEmpty(g, cpts[i + 1..]);
        return None;
      }
    }
    assert cpts[|cpts|..] == [];
    NothingAccepted(g, cur);
    if partial.remain < 0 {
      return None;
    }
    if partial.remain > 0 {
      var possible := false;
      for i := 0 to |cur|
        invariant possible <==> exists j :: 0 <= j < i && TopMayMatch(g, cur[j], partial)
      {
        var stk := cur[i];
        if stk != [] && !possible {
          var top := stk[|stk| - 1];
          assert WellFormedRule(g.rules[top.rule], |g.rules|);
          possible := MatchPartialChar(g.rules[top.rule], top.at, partial, |g.rules|);
        }
      }
      if !possible {
        return None;
      }
    }
    r := Some(State(cur, partial));
  }

  /**
   * When bytes can come next: they are not empty and well-formed as far as they are checked, the code points they
   * complete are accepted, and what is left unfinished passes the partial test.
   */
  lemma FedIs(g: Grammar, s: State, bytes: seq<byte>)
    requires Valid(g) && IsFeedState(g, s)
    ensures var d := Decode(bytes, s.partial);
      var stacks := AcceptAll(g, s.stacks, d.cpts);
      && (Fed(g, s, bytes).Some? <==>
          && bytes != [] && d.partial.remain >= 0 && (d.cpts == [] || stacks != [])
          && (d.partial.remain == 0 || SomeMayMatch(g, stacks, d.partial)))
      && (Fed(g, s, bytes).Some? ==> Fed(g, s, bytes).value == State(stacks, d.partial))
  {
    DecodeLeavesUnfinished(bytes, s.partial.value, s.partial.remain, true);
  }

  /** The partial test passes if the set on top of some stack may still be met. */
  lemma SomeMayMatchIs(g: Grammar, stacks: seq<Stack>, d: Partial)
    requires IsState(g, stacks) && d.remain >= 0
    ensures SomeMayMatch(g, stacks, d) <==> exists i :: (
      && 0 <= i < |stacks| && stacks[i] != []
      && var p := stacks[i][|stacks[i]| - 1];
         p.rule < |g.rules| && p.at < |g.rules[p.rule]| && MayMatch(g.rules[p.rule], p.at, d))
  {
    hide MayMatch;
    assert forall i :: 0 <= i < |stacks| ==> OnSymbols(g, stacks[i]);
    if i :| 0 <= i < |stacks| && stacks[i] != [] && var p := stacks[i][|stacks[i]| - 1];
              p.rule < |g.rules| && p.at < |g.rules[p.rule]| && MayMatch(g.rules[p.rule], p.at, d) {
      assert TopMayMatch(g, stacks[i], d);
    }
  }

  ghost function StartFed(g: Grammar): (s: State)
    requires Valid(g)
    ensures IsFeedState(g, s)
  {
    StartIsState(g);
    State(Start(g), Partial(0, 0))
  }

  /** The code points that `text` spells when no bytes are left over. */
  ghost predicate Spells(text: seq<byte>, w: seq<nat>) {
    var d := Decode(text, Partial(0, 0));
    d.partial.remain == 0 && d.cpts == w
  }

  /**
   * A fed text that leaves no code point unfinished spells code points `w`; the state then derives
   * what completes `w`, and it is complete exactly if `w` is a string of the grammar.
   */
  lemma FedTextIsInLanguage(g: Grammar, text: seq<byte>, s: State)
    requires Valid(g)
    requires (text == [] && s == StartFed(g)) || Fed(g, StartFed(g), text) == Some(s)
    requires s.partial.remain == 0
    ensures exists w :: Spells(text, w)
    ensures forall w :: Spells(text, w) ==> (StateDerives(g.rules, s.stacks, []) <==> InLanguage(g, w))
  {
    var w := Decode(text, Partial(0, 0)).cpts;
    assert Spells(text, w);
    Exactness(g, w);
    assert s.stacks == AcceptAll(g, Start(g), w);
    CompleteStack(g, s.stacks);
  }

  // ---- where a text may be cut --------------------------------------------------------------------

  predicate Continues(b: byte) {
    b / 64 == 2
  }

  /** The bytes of `b` that continue the code point `p` are continuation bytes, and the code point is
      not an overlong form: the well-formedness conditions of section 4 of RFC 3629. */
  predicate CutsWell(p: Partial, b: seq<byte>) {
    p.remain > 0 ==>
      && (forall i :: 0 <= i < |b| && i < p.remain ==> Continues(b[i]))
      && (p.remain == 1 ==> p.value >= 2)
      && (p.remain == 2 && p.value == 0 && b != [] ==> b[0] >= 0xA0)
      && (p.remain == 3 && p.value == 0 && b != [] ==> b[0] >= 0x90)
  }

  /** Cut anywhere its continuation bytes are well-formed, the parts decode to the whole. */
  lemma {:induction false} DecodeSplits(a: seq<byte>, b: seq<byte>, value: nat, remain: nat, carried: bool)
    requires DecodeFrom(a + b, value, remain, carried).partial.remain >= 0
    requires var p := DecodeFrom(a, value, remain, carried).partial; CutsWell(p, b)
    ensures var d := DecodeFrom(a, value, remain, carried);
      d.partial.remain >= 0 && DecodeFrom(b, d.partial.value, d.partial.remain, true).partial.remain >= 0
    decreases |a|
  {
    hide Shifted;
    hide LeadPayload;
    if a == [] {
      assert a + b == b;
      UncheckedIsChecked(b, value, remain, carried);
    } else {
      assert (a + b)[0] == a[0] && (a + b)[1..] == a[1..] + b;
      if remain > 1 {
        DecodeSplits(a[1..], b, Shifted(value, a[0]), remain - 1, carried);
      } else if remain == 1 {
        DecodeSplits(a[1..], b, Shifted(value, a[0]), 0, false);
      } else {
        var more := LeadLength(a[0]) - 1;
        DecodeSplits(a[1..], b, LeadPayload(a[0], more), more, false);
      }
    }
  }

  lemma {:induction false} UncheckedIsChecked(src: seq<byte>, value: nat, remain: nat, carried: bool)
    requires DecodeFrom(src, value, remain, carried).partial.remain >= 0
    requires forall i :: 0 <= i < |src| && i < remain ==> Continues(src[i])
    ensures DecodeFrom(src, value, remain, true) == DecodeFrom(src, value, remain, carried)
    decreases |src|
  {
    if src != [] && remain > 1 {
      UncheckedIsChecked(src[1..], Shifted(value, src[0]), remain - 1, carried);
    }
  }

  /** Every member of the set lies below `limit`. */
  predicate MembersBelow(r: Rule, i: nat, limit: nat)
    requires i < |r|
    decreases |r| - i
  {
    var n := NextMember(r, i);
    && r[i].value < limit
    && (i + 1 < |r| && r[i + 1].kind == RngUpper ==> r[i + 1].value < limit)
    && (n < |r| && r[n].kind == CharAlt ==> MembersBelow(r, n, limit))
  }

  /** Negated sets exclude only one-byte code points. */
  ghost predicate NegationsAreAscii(g: Grammar) {
    forall p: Pos :: IsPlace(g.rules, p) && Elem(g.rules, p).kind == CharNot ==> MembersBelow(g.rules[p.rule], p.at, 0x80)
  }

  lemma {:induction false} MembersBelowMissOverlap(r: Rule, i: nat, limit: nat, low: nat, high: nat)
    requires i < |r| && MembersBelow(r, i, limit) && limit <= low
    ensures !Overlaps(r, i, low, high)
    decreases |r| - i
  {
    var n := NextMember(r, i);
    if n < |r| && r[n].kind == CharAlt {
      MembersBelowMissOverlap(r, n, limit, low, high);
    }
  }

  lemma SpanValues()
    ensures Span(0) == 1 && Span(1) == 0x40 && Span(2) == 0x1000 && Span(3) == 0x4_0000
  {
    assert Pow2(6) == 64;
    Pow2Add(6, 6);
    Pow2Add(6, 12);
  }

  /** One more byte narrows the range of code points that `p` can become. */
  lemma NarrowerRange(p: Partial, b: byte)
    requires Unfinished(p) && p.remain > 1 && Continues(b) && CutsWell(p, [b])
    ensures var q := Partial(Shifted(p.value, b), p.remain - 1);
      && LowEnd(p) <= LowEnd(q) && HighEnd(q) <= HighEnd(p) && Unfinished(q)
      && (q.value == 0 ==> q.remain == 0) && (q.remain == 1 ==> q.value >= 2)
  {
    SpanValues();
    assert Shifted(p.value, b) == p.value * 64 + b % 64;
    if p.remain == 2 {
      assert HighEnd(p) == p.value * 0x1000 + 0xFFF;
    } else {
      assert HighEnd(p) == p.value * 0x4_0000 + 0x3_FFFF;
    }
  }

  lemma CompletedInRange(p: Partial, b: byte)
    requires Unfinished(p) && p.remain == 1 && Continues(b)
    ensures LowEnd(p) <= Shifted(p.value, b) <= HighEnd(p)
  {
    SpanValues();
  }

  lemma LowEndIsNotAscii(p: Partial)
    requires Unfinished(p) && p.remain > 0 && (p.remain == 1 ==> p.value >= 2)
    ensures 0x80 <= LowEnd(p)
  {
    SpanValues();
  }

  /** What `b` makes of the unfinished code point `p` lies in the range of `p`. */
  lemma {:induction false} StaysInRange(p: Partial, b: seq<byte>)
    requires Unfinished(p) && p.remain > 0 && CutsWell(p, b)
    requires DecodeFrom(b, p.value, p.remain, true).partial.remain >= 0
    ensures var d := DecodeFrom(b, p.value, p.remain, true);
      if |b| < p.remain
      then d.cpts == [] && d.partial.remain == p.remain - |b|
           && LowEnd(p) <= LowEnd(d.partial) && HighEnd(d.partial) <= HighEnd(p)
      else d.cpts != [] && LowEnd(p) <= d.cpts[0] <= HighEnd(p)
    decreases |b|
  {
    hide Shifted;
    hide LowEnd;
    hide HighEnd;
    if b != [] {
      assert Continues(b[0]);
      if p.remain > 1 {
        NarrowerRange(p, b[0]);
        StaysInRange(Partial(Shifted(p.value, b[0]), p.remain - 1), b[1..]);
      } else {
        CompletedInRange(p, b[0]);
      }
    }
  }

  lemma {:induction false} OverlapsWider(r: Rule, i: nat, low: nat, high: nat, low': nat, high': nat)
    requires i < |r| && low' <= low && high <= high' && Overlaps(r, i, low, high)
    ensures Overlaps(r, i, low', high')
    decreases |r| - i
  {
    var n := NextMember(r, i);
    if n < |r| && r[n].kind == CharAlt && Overlaps(r, n, low, high) {
      OverlapsWider(r, n, low, high, low', high');
    }
  }

  /** A place that takes the finished code point, or may still take what is left of it, may take it now. */
  lemma TopMatchesEarlier(g: Grammar, s: Stack, p: Partial, q: Partial, c: nat)
    requires Valid(g) && OnSymbols(g, s) && Waits(g, s) && s != [] && NegationsAreAscii(g)
    requires Unfinished(p) && p.remain > 0 && (p.remain == 1 ==> p.value >= 2) && q.remain >= 0
    requires (LowEnd(p) <= c <= HighEnd(p) && Accepts(g.rules[s[|s| - 1].rule], s[|s| - 1].at, c))
      || (LowEnd(p) <= LowEnd(q) && HighEnd(q) <= HighEnd(p) && TopMayMatch(g, s, q))
    ensures TopMayMatch(g, s, p)
  {
    var top := s[|s| - 1];
    var r := g.rules[top.rule];
    if r[top.at].kind == CharNot {
      LowEndIsNotAscii(p);
      assert MembersBelow(r, top.at, 0x80);
      MembersBelowMissOverlap(r, top.at, 0x80, LowEnd(p), HighEnd(p));
    } else if LowEnd(p) <= c <= HighEnd(p) && Accepts(r, top.at, c) {
      CoversOverlaps(r, top.at, c, LowEnd(p), HighEnd(p));
    } else {
      OverlapsWider(r, top.at, LowEnd(q), HighEnd(q), LowEnd(p), HighEnd(p));
    }
  }

  /** A code point leaves stacks only if some top takes it. */
  lemma {:induction false} SomeTopAccepts(g: Grammar, stacks: seq<Stack>, c: nat) returns (i: nat)
    requires Valid(g) && IsState(g, stacks) && Accept(g, stacks, c) != []
    ensures i < |stacks| && stacks[i] != []
      && Accepts(g.rules[stacks[i][|stacks[i]| - 1].rule], stacks[i][|stacks[i]| - 1].at, c)
  {
    hide Advance;
    var n := |stacks| - 1;
    var s := stacks[n];
    if s != [] && Accepts(g.rules[s[|s| - 1].rule], s[|s| - 1].at, c) {
      i := n;
    } else {
      i := SomeTopAccepts(g, stacks[..n], c);
    }
  }

  /**
   * Exactly when a text that can be fed at once can be fed in two pieces, for a cut that does not
   * split an ill-formed sequence: when the first piece leaves no code point unfinished, or some
   * stack passes the partial test. The pieces then lead to the same state.
   */
  lemma FeedSplitsExactly(g: Grammar, s: State, a: seq<byte>, b: seq<byte>)
    requires Valid(g) && IsFeedState(g, s) && a != [] && b != []
    requires Fed(g, s, a + b).Some?
    requires CutsWell(Decode(a, s.partial).partial, b)
    ensures var d := Decode(a, s.partial);
      Fed(g, s, a).Some? <==> d.partial.remain == 0
                              || (d.partial.remain > 0 && SomeMayMatch(g, AcceptAll(g, s.stacks, d.cpts), d.partial))
    ensures Fed(g, s, a).Some? ==> Fed(g, Fed(g, s, a).value, b) == Fed(g, s, a + b)
  {
    var d := Decode(a, s.partial);
    DecodeSplits(a, b, s.partial.value, s.partial.remain, true);
    DecodeLeavesUnfinished(a, s.partial.value, s.partial.remain, true);
    var p := d.partial;
    var e := Decode(b, p);
    DecodeConcat(a, b, s.partial.value, s.partial.remain, true);
    var stacks := AcceptAll(g, s.stacks, d.cpts);
    AcceptAllConcat(g, s.stacks, d.cpts, e.cpts);
    if stacks == [] {
      EmptyStaysEmpty(g, e.cpts);
    }
  }

  /** Exactly when more can be fed, in terms of feeding everything at once. */
  lemma FeedGoesOn(g: Grammar, s: State, a: seq<byte>, b: seq<byte>)
    requires Valid(g) && IsFeedState(g, s) && Fed(g, s, a).Some?
    ensures Fed(g, Fed(g, s, a).value, b).Some? <==>
      && b != [] && Fed(g, s, a + b).Some?
      && forall i :: 0 <= i < |b| && i < Fed(g, s, a).value.partial.remain ==> 0x80 <= b[i] < 0xC0
  {
    var s1 := Fed(g, s, a).value;
    var p := s1.partial;
    if Fed(g, s1, b).Some? {
      FeedConcat(g, s, a, b);
      CheckedBytesContinue(b, p.value, p.remain);
    }
    if b != [] && Fed(g, s, a + b).Some? && forall i :: 0 <= i < |b| && i < p.remain ==> 0x80 <= b[i] < 0xC0 {
      ContinuedSplits(a, b, s.partial.value, s.partial.remain, true);
      DecodeConcat(a, b, s.partial.value, s.partial.remain, true);
      AcceptAllConcat(g, s.stacks, Decode(a, s.partial).cpts, Decode(b, p).cpts);
      if s1.stacks == [] {
        EmptyStaysEmpty(g, Decode(b, p).cpts);
      }
    }
  }

  /** The bytes that complete a carried code point are continuation bytes. */
  lemma {:induction false} CheckedBytesContinue(src: seq<byte>, value: nat, remain: nat)
    requires DecodeFrom(src, value, remain, true).partial.remain >= 0
    ensures forall i :: 0 <= i < |src| && i < remain ==> 0x80 <= src[i] < 0xC0
    decreases |src|
  {
    if src != [] && remain > 1 {
      CheckedBytesContinue(src[1..], Shifted(value, src[0]), remain - 1);
      assert forall i :: 1 <= i < |src| ==> src[i] == src[1..][i - 1];
    }
  }

  lemma {:induction false} ContinuedSplits(a: seq<byte>, b: seq<byte>, value: nat, remain: nat, carried: bool)
    requires DecodeFrom(a + b, value, remain, carried).partial.remain >= 0
    requires var p := DecodeFrom(a, value, remain, carried).partial;
      forall i :: 0 <= i < |b| && i < p.remain ==> 0x80 <= b[i] < 0xC0
    ensures var d := DecodeFrom(a, value, remain, carried);
      d.partial.remain >= 0 ==> DecodeFrom(b, d.partial.value, d.partial.remain, true).partial.remain >= 0
    decreases |a|
  {
    hide Shifted;
    hide LeadPayload;
    if a == [] {
      assert a + b == b;
      UncheckedIsChecked(b, value, remain, carried);
    } else {
      assert (a + b)[0] == a[0] && (a + b)[1..] == a[1..] + b;
      if remain > 1 {
        ContinuedSplits(a[1..], b, Shifted(value, a[0]), remain - 1, carried);
      } else if remain == 1 {
        ContinuedSplits(a[1..], b, Shifted(value, a[0]), 0, false);
      } else if LeadLength(a[0]) > 0 {
        var more := LeadLength(a[0]) - 1;
        ContinuedSplits(a[1..], b, LeadPayload(a[0], more), more, false);
      }
    }
  }

  /**
   * The converse of `FeedConcat`: with negated sets that exclude only one-byte code points, the
   * partial test never stands in the way.
   */
  lemma FeedSplits(g: Grammar, s: State, a: seq<byte>, b: seq<byte>)
    requires Valid(g) && IsFeedState(g, s) && a != [] && b != []
    requires Fed(g, s, a + b).Some?
    requires CutsWell(Decode(a, s.partial).partial, b) && NegationsAreAscii(g)
    ensures Fed(g, s, a).Some? && Fed(g, Fed(g, s, a).value, b) == Fed(g, s, a + b)
  {
    var d := Decode(a, s.partial);
    FeedSplitsExactly(g, s, a, b);
    DecodeSplits(a, b, s.partial.value, s.partial.remain, true);
    DecodeLeavesUnfinished(a, s.partial.value, s.partial.remain, true);
    var p := d.partial;
    var e := Decode(b, p);
    DecodeConcat(a, b, s.partial.value, s.partial.remain, true);
    AcceptAllConcat(g, s.stacks, d.cpts, e.cpts);
    if p.remain > 0 {
      PieceMayMatch(g, AcceptAll(g, s.stacks, d.cpts), p, b);
    }
  }

  lemma PieceMayMatch(g: Grammar, stacks: seq<Stack>, p: Partial, b: seq<byte>)
    requires Valid(g) && IsState(g, stacks) && NegationsAreAscii(g)
    requires Unfinished(p) && p.remain > 0 && b != [] && CutsWell(p, b)
    requires var e := Decode(b, p);
      && e.partial.remain >= 0
      && (e.cpts != [] ==> AcceptAll(g, stacks, e.cpts) != [])
      && (e.cpts == [] && e.partial.remain > 0 ==> SomeMayMatch(g, stacks, e.partial))
    ensures SomeMayMatch(g, stacks, p)
  {
    hide NegationsAreAscii;
    hide MayMatch;
    hide LowEnd;
    hide HighEnd;
    var e := Decode(b, p);
    StaysInRange(p, b);
    if |b| < p.remain {
      var i :| 0 <= i < |stacks| && TopMayMatch(g, stacks[i], e.partial);
      TopMatchesEarlier(g, stacks[i], p, e.partial, 0);
    } else {
      var c := e.cpts[0];
      AcceptStep(g, stacks, e.cpts);
      if Accept(g, stacks, c) == [] {
        EmptyStaysEmpty(g, e.cpts[1..]);
      }
      var i := SomeTopAccepts(g, stacks, c);
      TopMatchesEarlier(g, stacks[i], p, p, c);
    }
  }
}
