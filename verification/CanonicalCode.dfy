/**
 * Canonical codes from code lengths, as in section 3.2.2 of RFC 1951: codes of one length are
 * consecutive in symbol order, and shorter codes come before the prefixes of longer ones.
 */
module CanonicalCode {
  import opened Arith
  import opened HuffmanOptimality
  import opened HuffmanLengths

  type bit = b: int | 0 <= b < 2

  const MAX_LEN: nat := 24

  /** How many of the first `n` symbols have a code of length `l`. */
  function Count(len: seq<nat>, l: nat, n: nat): nat
    requires n <= |len|
  {
    if n == 0 then 0 else Count(len, l, n - 1) + (if l > 0 && len[n - 1] == l then 1 else 0)
  }

  /** The number of codes of length `l`. */
  function Codes(len: seq<nat>, l: nat): nat {
    Count(len, l, |len|)
  }

  function FirstCode(len: seq<nat>, l: nat): nat {
    if l == 0 then 0 else 2 * (FirstCode(len, l - 1) + Codes(len, l - 1))
  }

  /** The number of codes shorter than `l`. */
  function FirstIndex(len: seq<nat>, l: nat): nat {
    if l == 0 then 0 else FirstIndex(len, l - 1) + Codes(len, l - 1)
  }

  function Code(len: seq<nat>, s: nat): nat
    requires s < |len|
  {
    FirstCode(len, len[s]) + Count(len, len[s], s)
  }

  /** A code-length table a decoder accepts and that leaves room for every code. */
  ghost predicate PrefixCode(len: seq<nat>) {
    && |len| == ALPHABET
    && (forall s :: 0 <= s < ALPHABET ==> len[s] <= MAX_LEN)
    && TableKraft(len, MAX_LEN) <= Pow2(MAX_LEN)
  }

  // ---- codes stay within their lengths --------------------------------------------------

  lemma {:induction false} CountMonotone(len: seq<nat>, l: nat, m: nat, n: nat)
    requires m <= n <= |len|
    ensures Count(len, l, m) <= Count(len, l, n)
    decreases n
  {
    if m < n {
      CountMonotone(len, l, m, n - 1);
    }
  }

  lemma RankBelowCount(len: seq<nat>, s: nat)
    requires s < |len| && len[s] > 0
    ensures Count(len, len[s], s) < Codes(len, len[s])
  {
    CountMonotone(len, len[s], s + 1, |len|);
  }

  /** Going one level deeper doubles every share and adds the codes of the new length. */
  lemma {:induction false} KraftNextLevel(len: seq<nat>, l: nat, n: nat)
    requires l > 0 && n <= |len|
    ensures TableKraft(len[..n], l) == 2 * TableKraft(len[..n], l - 1) + Count(len, l, n)
  {
    if n > 0 {
      KraftNextLevel(len, l, n - 1);
      TableKraftAppend(len[..n - 1], len[n - 1], l);
      TableKraftAppend(len[..n - 1], len[n - 1], l - 1);
      assert len[..n - 1] + [len[n - 1]] == len[..n];
    }
  }

  lemma TableKraftAppend(len: seq<nat>, l: nat, d: nat)
    ensures TableKraft(len + [l], d) == TableKraft(len, d) + TableShare(l, d)
  {
    assert TableShares(len + [l], d) == TableShares(len, d) + [TableShare(l, d)];
    SumConcat(TableShares(len, d), [TableShare(l, d)]);
  }

  lemma {:induction false} CountZero(len: seq<nat>, n: nat)
    requires n <= |len|
    ensures Count(len, 0, n) == 0
  {
    if n > 0 {
      CountZero(len, n - 1);
    }
  }

  lemma {:induction false} KraftAtRoot(len: seq<nat>)
    ensures TableKraft(len, 0) == 0
  {
    if len != [] {
      KraftAtRoot(len[1..]);
      assert TableShares(len, 0)[1..] == TableShares(len[1..], 0);
    }
  }

  /** The codes up to length `l` fill the Kraft sum of that depth. */
  lemma {:induction false} FirstCodeIsKraft(len: seq<nat>, l: nat)
    ensures FirstCode(len, l) + Codes(len, l) == TableKraft(len, l)
  {
    if l == 0 {
      CountZero(len, |len|);
      KraftAtRoot(len);
    } else {
      FirstCodeIsKraft(len, l - 1);
      KraftNextLevel(len, l, |len|);
      assert len[..|len|] == len;
    }
  }

  /** Every code shorter than `l` blocks 2^(l-k) values at length `l`. */
  lemma {:induction false} FirstCodePassesShorter(len: seq<nat>, k: nat, l: nat)
    requires k < l
    ensures (FirstCode(len, k) + Codes(len, k)) * Pow2(l - k) <= FirstCode(len, l)
    decreases l
  {
    var u := FirstCode(len, k) + Codes(len, k);
    if k + 1 < l {
      FirstCodePassesShorter(len, k, l - 1);
      DoubleFactor(u, Pow2(l - 1 - k));
    } else {
      assert Pow2(1) == 2 * Pow2(0);
    }
  }

  lemma CodesFit(len: seq<nat>, l: nat)
    requires PrefixCode(len) && l <= MAX_LEN
    ensures FirstCode(len, l) + Codes(len, l) <= Pow2(l)
  {
    FirstCodeIsKraft(len, MAX_LEN);
    if l < MAX_LEN {
      FitsEarlier(len, l, MAX_LEN);
    }
  }

  lemma FitsEarlier(len: seq<nat>, l: nat, d: nat)
    requires l < d && FirstCode(len, d) <= Pow2(d)
    ensures FirstCode(len, l) + Codes(len, l) <= Pow2(l)
  {
    FirstCodePassesShorter(len, l, d);
    Pow2Add(l, d - l);
    CancelFactor(FirstCode(len, l) + Codes(len, l), Pow2(l), Pow2(d - l));
  }

  lemma CancelFactor(a: nat, b: nat, u: nat)
    requires u > 0 && a * u <= b * u
    ensures a <= b
  {
    MulMonotone(b + 1, a, u);
    assert (b + 1) * u == b * u + u;
  }

  lemma CodeFits(len: seq<nat>, s: nat)
    requires PrefixCode(len) && s < |len| && len[s] > 0
    ensures Code(len, s) < FirstCode(len, len[s]) + Codes(len, len[s]) <= Pow2(len[s])
  {
    RankBelowCount(len, s);
    CodesFit(len, len[s]);
  }

  lemma {:induction false} SharesBefore(len: seq<nat>, s: nat, n: nat)
    requires s < |len| && 0 < len[s] && n <= |len|
    ensures 2 * TableKraft(len[..n], len[s] - 1) + Count(len, len[s], Min(n, s))
         == Sum(seq(n, t requires 0 <= t < n =>
                  if 0 < len[t] < len[s] || (len[t] == len[s] && t < s) then Pow2(len[s] - len[t]) else 0))
  {
    if n == 0 {
      assert Sum([]) == 0 && TableShares(len[..0], len[s] - 1) == [];
    } else {
      var m := n - 1;
      var shares := seq(n, t requires 0 <= t < n =>
        if 0 < len[t] < len[s] || (len[t] == len[s] && t < s) then Pow2(len[s] - len[t]) else 0);
      SharesBefore(len, s, m);
      assert shares[..m] == seq(m, t requires 0 <= t < m =>
        if 0 < len[t] < len[s] || (len[t] == len[s] && t < s) then Pow2(len[s] - len[t]) else 0);
      SumConcat(shares[..m], [shares[m]]);
      assert shares == shares[..m] + [shares[m]] && Sum([shares[m]]) == shares[m];
      TableKraftAppend(len[..m], len[m], len[s] - 1);
      assert len[..n] == len[..m] + [len[m]];
    }
  }

  /**
   * The closed form of a canonical code: what the codes before it, the shorter ones and those of its length with
   * smaller symbols, take up at its length.
   */
  lemma CodeIsSharesBefore(len: seq<nat>, s: nat)
    requires s < |len| && 0 < len[s]
    ensures Code(len, s)
         == Sum(seq(|len|, t requires 0 <= t < |len| =>
                  if 0 < len[t] < len[s] || (len[t] == len[s] && t < s) then Pow2(len[s] - len[t]) else 0))
  {
    FirstCodeIsKraft(len, len[s] - 1);
    SharesBefore(len, s, |len|);
    assert len[..|len|] == len;
  }

  // ---- no code is a prefix of another ---------------------------------------------------

  /** The bits of `c`, most significant first. */
  function CodeBits(c: nat, l: nat): (r: seq<bit>)
    ensures |r| == l
  {
    if l == 0 then [] else CodeBits(c / 2, l - 1) + [c % 2]
  }

  function BitsValue(bits: seq<bit>): (v: nat)
    ensures v < Pow2(|bits|)
  {
    if bits == [] then 0 else 2 * BitsValue(bits[..|bits| - 1]) + bits[|bits| - 1]
  }

  lemma {:induction false} BitsOfValue(c: nat, l: nat)
    requires c < Pow2(l)
    ensures BitsValue(CodeBits(c, l)) == c
  {
    if l > 0 {
      BitsOfValue(c / 2, l - 1);
      assert CodeBits(c, l)[..l - 1] == CodeBits(c / 2, l - 1);
    }
  }

  /** The first `k` bits of a code are its value shifted right. */
  lemma {:induction false} PrefixValue(c: nat, l: nat, k: nat)
    requires k <= l && c < Pow2(l)
    ensures BitsValue(CodeBits(c, l)[..k]) * Pow2(l - k) <= c < (BitsValue(CodeBits(c, l)[..k]) + 1) * Pow2(l - k)
    decreases l
  {
    if k == l {
      assert CodeBits(c, l)[..k] == CodeBits(c, l);
      BitsOfValue(c, l);
    } else {
      PrefixValue(c / 2, l - 1, k);
      assert CodeBits(c, l)[..k] == CodeBits(c / 2, l - 1)[..k];
      HalfBounds(BitsValue(CodeBits(c, l)[..k]), Pow2(l - 1 - k), c);
    }
  }

  lemma HalfBounds(p: nat, u: nat, c: nat)
    requires p * u <= c / 2 < (p + 1) * u
    ensures p * (2 * u) <= c < (p + 1) * (2 * u)
  {
    DoubleFactor(p, u);
    DoubleFactor(p + 1, u);
  }

  function SymbolBits(len: seq<nat>, s: nat): seq<bit>
    requires s < |len|
  {
    CodeBits(Code(len, s), len[s])
  }

  /** Read as a number, every proper prefix of a code is past all codes of the prefix's length. */
  lemma PrefixPassesShorterCodes(len: seq<nat>, s: nat, k: nat)
    requires PrefixCode(len) && s < |len| && 0 < k < len[s]
    ensures FirstCode(len, k) + Codes(len, k) <= BitsValue(SymbolBits(len, s)[..k])
  {
    hide FirstCode;
    hide Codes;
    hide BitsValue;
    hide CodeBits;
    hide Pow2;
    var l := len[s];
    CodeFits(len, s);
    PrefixValue(Code(len, s), l, k);
    FirstCodePassesShorter(len, k, l);
    EdgeBelow(BitsValue(SymbolBits(len, s)[..k]), FirstCode(len, k) + Codes(len, k), Pow2(l - k), Code(len, s));
  }

  lemma EdgeBelow(p: nat, edge: nat, u: nat, c: nat)
    requires edge * u <= c < (p + 1) * u
    ensures edge <= p
  {
    if p < edge {
      MulMonotone(p + 1, edge, u);
    }
  }

  lemma SameLengthOrder(len: seq<nat>, s: nat, t: nat)
    requires s < t < |len| && 0 < len[s] == len[t]
    ensures Code(len, s) < Code(len, t)
  {
    CountMonotone(len, len[s], s + 1, t);
  }

  /** Distinct symbols have codes of which neither is a prefix of the other. */
  lemma PrefixFree(len: seq<nat>, s: nat, t: nat)
    requires PrefixCode(len) && s < |len| && t < |len| && s != t && len[s] > 0 && len[t] > 0
    ensures !(SymbolBits(len, s) <= SymbolBits(len, t))
  {
    if SymbolBits(len, s) <= SymbolBits(len, t) {
      CodeFits(len, s);
      CodeFits(len, t);
      BitsOfValue(Code(len, s), len[s]);
      BitsOfValue(Code(len, t), len[t]);
      if len[s] == len[t] {
        assert SymbolBits(len, s) == SymbolBits(len, t);
        if s < t {
          SameLengthOrder(len, s, t);
        } else {
          SameLengthOrder(len, t, s);
        }
      } else {
        assert SymbolBits(len, s) == SymbolBits(len, t)[..len[s]];
        PrefixPassesShorterCodes(len, t, len[s]);
      }
    }
  }

  // ---- the reverse lookup ----------------------------------------------------------------

  /** The symbols with codes of length `l` among the first `n`, in symbol order. */
  function SymbolsOfLength(len: seq<nat>, l: nat, n: nat): (r: seq<nat>)
    requires n <= |len|
    ensures |r| == Count(len, l, n)
    ensures forall i :: 0 <= i < |r| ==> r[i] < n
  {
    if n == 0 then []
    else SymbolsOfLength(len, l, n - 1) + (if l > 0 && len[n - 1] == l then [n - 1] else [])
  }

  /** A symbol stands at its rank in the list of its length. */
  lemma {:induction false} SymbolAtRank(len: seq<nat>, s: nat, n: nat)
    requires s < n <= |len| && len[s] > 0
    ensures Count(len, len[s], s) < Count(len, len[s], n)
    ensures SymbolsOfLength(len, len[s], n)[Count(len, len[s], s)] == s
    decreases n
  {
    CountMonotone(len, len[s], s + 1, n);
    if s < n - 1 {
      SymbolAtRank(len, s, n - 1);
    }
  }

  /** The symbol at a rank has the length of the list and that rank. */
  lemma {:induction false} RankOfSymbol(len: seq<nat>, l: nat, n: nat, i: nat)
    requires n <= |len| && i < Count(len, l, n)
    ensures var s := SymbolsOfLength(len, l, n)[i]; 0 < len[s] == l && Count(len, l, s) == i
  {
    if i < Count(len, l, n - 1) {
      RankOfSymbol(len, l, n - 1, i);
    }
  }

  /** Symbols with a code of length below `l`, among the first `n`. */
  function Shorter(len: seq<nat>, l: nat, n: nat): (r: nat)
    requires n <= |len|
    ensures r <= n
  {
    if n == 0 then 0 else Shorter(len, l, n - 1) + (if 0 < len[n - 1] < l then 1 else 0)
  }

  lemma {:induction false} ShorterStep(len: seq<nat>, l: nat, n: nat)
    requires n <= |len|
    ensures Shorter(len, l + 1, n) == Shorter(len, l, n) + Count(len, l, n)
  {
    if n > 0 {
      ShorterStep(len, l, n - 1);
    }
  }

  lemma {:induction false} ShorterZero(len: seq<nat>, n: nat)
    requires n <= |len|
    ensures Shorter(len, 0, n) == 0
  {
    if n > 0 {
      ShorterZero(len, n - 1);
    }
  }

  lemma {:induction false} FirstIndexIsShorter(len: seq<nat>, l: nat)
    ensures FirstIndex(len, l) == Shorter(len, l, |len|)
  {
    if l == 0 {
      ShorterZero(len, |len|);
    } else {
      FirstIndexIsShorter(len, l - 1);
      ShorterStep(len, l - 1, |len|);
    }
  }

  /** The index blocks of the lengths lie one after the other inside the table. */
  lemma IndexInRange(len: seq<nat>, l: nat)
    ensures FirstIndex(len, l) + Codes(len, l) <= |len|
  {
    FirstIndexIsShorter(len, l);
    FirstIndexIsShorter(len, l + 1);
    ShorterStep(len, l, |len|);
  }

  /** Any table at all, even one that is no prefix code, keeps the code counter far below 2^32. */
  lemma {:induction false} KraftBound(len: seq<nat>, l: nat)
    ensures 2 * TableKraft(len, l) <= |len| * Pow2(l)
  {
    if len != [] {
      var n := |len| - 1;
      KraftBound(len[..n], l);
      TableKraftAppend(len[..n], len[n], l);
      assert len[..n] + [len[n]] == len;
      assert 2 * TableShare(len[n], l) <= Pow2(l) by {
        if 0 < len[n] <= l {
          Pow2Monotone(l - len[n], l - 1);
        }
      }
      assert (n + 1) * Pow2(l) == n * Pow2(l) + Pow2(l);
    }
  }

  lemma CodeCounterBound(len: seq<nat>, l: nat)
    requires |len| == ALPHABET && l <= MAX_LEN
    ensures FirstCode(len, l) + Codes(len, l) <= 0x8000_0000
  {
    FirstCodeIsKraft(len, l);
    KraftBound(len, l);
    Pow2Monotone(l, MAX_LEN);
    Pow2Values();
    MulMonotone(Pow2(l), Pow2(MAX_LEN), ALPHABET);
  }
}
