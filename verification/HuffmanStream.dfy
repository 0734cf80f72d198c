/** The packed bit stream of canonical codes: writing it, reading it, and reading back what was written. */
module HuffmanStream {
  import opened Results
  import opened Arith
  import opened HuffmanOptimality
  import opened HuffmanLengths
  import opened CanonicalCode

  const WORD: nat := 0x1_0000_0000

  datatype DecodeError = ShortBlob | OutputSize | BlobSize | LengthCap | Underrun | NoCode

  // ---- bits in bytes --------------------------------------------------------------------

  /** `(c >> k) & 1`. */
  function ShiftedBit(c: nat, k: nat): bit {
    (c / Pow2(k)) % 2
  }

  /** `a << k`, before truncation. */
  function ShiftLeft(a: nat, k: nat): nat {
    a * Pow2(k)
  }

  /** Bit `i` of a byte string, each byte read from its most significant bit. */
  function BitAt(bytes: seq<byte>, i: nat): bit
    requires i < 8 * |bytes|
  {
    ShiftedBit(bytes[i / 8], 7 - i % 8)
  }

  /** `bytes` holds exactly `bits`, filled up with zeros to whole bytes. */
  ghost predicate Packed(bytes: seq<byte>, bits: seq<bit>) {
    && |bytes| == (|bits| + 7) / 8
    && forall i :: 0 <= i < 8 * |bytes| ==> BitAt(bytes, i) == if i < |bits| then bits[i] else 0
  }

  /** Shifting right and masking finds the bit at a place of the value. */
  lemma {:induction false} BitOfValue(bits: seq<bit>, j: nat)
    requires j < |bits|
    ensures ShiftedBit(BitsValue(bits), |bits| - 1 - j) == bits[j]
  {
    var n := |bits| - 1;
    if j < n {
      BitOfValue(bits[..n], j);
      HalveDivision(BitsValue(bits[..n]), bits[n], Pow2(n - 1 - j));
    } else {
      LastBit(BitsValue(bits[..n]), bits[n]);
    }
  }

  lemma LastBit(v: nat, b: bit)
    ensures ShiftedBit(2 * v + b, 0) == b
  {
    assert Pow2(0) == 1;
  }

  lemma HalveDivision(v: nat, b: bit, u: nat)
    requires u > 0
    ensures (2 * v + b) / (2 * u) == v / u
  {
    var q, r := v / u, v % u;
    assert v == q * u + r;
    assert 2 * v + b == q * (2 * u) + (2 * r + b);
    DivisionUnique(2 * v + b, 2 * u, q, 2 * r + b);
  }

  lemma DivisionUnique(a: nat, u: nat, q: nat, r: nat)
    requires r < u && a == q * u + r
    ensures a / u == q
  {
    var p := a / u;
    assert a == p * u + a % u;
    MulMonotone(p + 1, q, u);
    MulMonotone(q + 1, p, u);
    assert (p + 1) * u == p * u + u && (q + 1) * u == q * u + u;
  }

  lemma {:induction false} ZeroFill(bits: seq<bit>, k: nat)
    ensures BitsValue(bits + seq(k, _ => 0)) == ShiftLeft(BitsValue(bits), k)
  {
    var zeros: seq<bit> := seq(k, _ => 0);
    if k == 0 {
      assert bits + zeros == bits;
    } else {
      ZeroFill(bits, k - 1);
      assert (bits + zeros)[..|bits| + k - 1] == bits + seq(k - 1, _ => 0);
      DoubleFactor(BitsValue(bits), Pow2(k - 1));
    }
  }

  /** The bits still in the accumulator after `bytes` whole bytes of `done`. */
  ghost predicate Packing(bytes: seq<byte>, acc: nat, nbits: nat, done: seq<bit>) {
    && nbits < 8 && |done| == 8 * |bytes| + nbits
    && acc == BitsValue(done[8 * |bytes|..])
    && forall i :: 0 <= i < 8 * |bytes| ==> BitAt(bytes, i) == done[i]
  }

  lemma ByteBits(bytes: seq<byte>, bits: seq<bit>, last: byte)
    requires |bits| == 8 && last == BitsValue(bits)
    ensures forall i :: 0 <= i < 8 * |bytes| ==> BitAt(bytes + [last], i) == BitAt(bytes, i)
    ensures forall j :: 0 <= j < 8 ==> BitAt(bytes + [last], 8 * |bytes| + j) == bits[j]
  {
    forall j | 0 <= j < 8 ensures BitAt(bytes + [last], 8 * |bytes| + j) == bits[j] {
      BitOfValue(bits, j);
    }
  }

  /** One more bit, before it may complete a byte. */
  lemma PushBit(bytes: seq<byte>, acc: nat, nbits: nat, done: seq<bit>, b: bit)
    requires Packing(bytes, acc, nbits, done)
    ensures 2 * acc + b < 256
    ensures nbits + 1 < 8 ==> Packing(bytes, 2 * acc + b, nbits + 1, done + [b])
    ensures nbits + 1 == 8 ==> Packing(bytes + [2 * acc + b], 0, 0, done + [b])
  {
    var tail := done[8 * |bytes|..];
    assert (done + [b])[8 * |bytes|..] == tail + [b];
    assert (tail + [b])[..|tail|] == tail;
    Pow2Monotone(nbits + 1, 8);
    Pow2Values();
    assert BitsValue(tail + [b]) == 2 * acc + b;
    if nbits + 1 == 8 {
      ByteBits(bytes, tail + [b], 2 * acc + b);
      CompleteByte(bytes, done + [b], 2 * acc + b);
    }
  }

  lemma CompleteByte(bytes: seq<byte>, done: seq<bit>, last: byte)
    requires |done| == 8 * |bytes| + 8
    requires forall i :: 0 <= i < 8 * |bytes| ==> BitAt(bytes + [last], i) == done[i]
    requires forall j :: 0 <= j < 8 ==> BitAt(bytes + [last], 8 * |bytes| + j) == done[8 * |bytes|..][j]
    ensures Packing(bytes + [last], 0, 0, done)
  {
    forall i | 0 <= i < 8 * |bytes| + 8 ensures BitAt(bytes + [last], i) == done[i] {
      if i >= 8 * |bytes| {
        var j := i - 8 * |bytes|;
        assert BitAt(bytes + [last], 8 * |bytes| + j) == done[8 * |bytes|..][j];
      }
    }
    assert done[8 * |bytes + [last]|..] == [];
  }

  lemma PadLast(bytes: seq<byte>, acc: nat, nbits: nat, done: seq<bit>)
    requires Packing(bytes, acc, nbits, done) && nbits > 0
    ensures ShiftLeft(acc, 8 - nbits) < 256
    ensures Packed(bytes + [ShiftLeft(acc, 8 - nbits)], done)
  {
    var tail := done[8 * |bytes|..];
    ZeroFill(tail, 8 - nbits);
    Pow2Values();
    AppendFilled(bytes, done, tail + seq(8 - nbits, _ => 0), ShiftLeft(acc, 8 - nbits));
  }

  lemma AppendFilled(bytes: seq<byte>, done: seq<bit>, filled: seq<bit>, last: nat)
    requires |filled| == 8 && last == BitsValue(filled) && last < 256
    requires 8 * |bytes| < |done| <= 8 * |bytes| + 8
    requires forall i :: 0 <= i < 8 * |bytes| ==> BitAt(bytes, i) == done[i]
    requires forall j :: 0 <= j < 8 ==> filled[j] == if 8 * |bytes| + j < |done| then done[8 * |bytes| + j] else 0
    ensures Packed(bytes + [last], done)
  {
    ByteBits(bytes, filled, last);
    forall i | 0 <= i < 8 * |bytes| + 8
      ensures BitAt(bytes + [last], i) == if i < |done| then done[i] else 0
    {
      if i >= 8 * |bytes| {
        var j := i - 8 * |bytes|;
        assert BitAt(bytes + [last], 8 * |bytes| + j) == filled[j];
      }
    }
  }

  /** The codes of the symbols of `hi`, one after the other. */
  function AllBits(hi: seq<byte>, len: seq<nat>): seq<bit>
    requires |len| == ALPHABET
  {
    if hi == [] then []
    else AllBits(hi[..|hi| - 1], len) + SymbolBits(len, hi[|hi| - 1])
  }

  /** A code is written from its most significant bit. */
  lemma {:induction false} CodeBit(c: nat, l: nat, b: nat)
    requires b < l
    ensures CodeBits(c, l)[b] == ShiftedBit(c, l - 1 - b)
  {
    if b < l - 1 {
      CodeBit(c / 2, l - 1, b);
      HalveDivision(c / 2, c % 2, Pow2(l - 2 - b));
    } else {
      LastBit(c / 2, c % 2);
    }
  }

  lemma NothingPacked()
    ensures Packing([], 0, 0, [])
  {
  }

  lemma AllPacked(bytes: seq<byte>, acc: nat, done: seq<bit>)
    requires Packing(bytes, acc, 0, done)
    ensures Packed(bytes, done)
  {
  }

  method PackHiStream(hi: seq<byte>, len: seq<nat>, symCode: seq<nat>) returns (bytes: seq<byte>)
    requires |symCode| == |len| == ALPHABET
    requires forall s :: 0 <= s < ALPHABET && len[s] > 0 ==> symCode[s] == Code(len, s) < Pow2(len[s])
    ensures Packed(bytes, AllBits(hi, len))
  {
    hide Packing;
    hide Packed;
    hide BitsValue;
    hide Code;
    hide ShiftedBit;
    hide ShiftLeft;
    bytes := [];
    assert Packing([], 0, 0, []) by {
      NothingPacked();
    }
    var acc: nat, nbits: nat := 0, 0;
    ghost var done: seq<bit> := [];
    for i := 0 to |hi|
      invariant done == AllBits(hi[..i], len)
      invariant nbits < 8 && Packing(bytes, acc, nbits, done)
    {
      var s := hi[i];
      var l, c := len[s], symCode[s];
      ghost var before := done;
      ghost var code := SymbolBits(len, s);
      for b := 0 to l
        invariant done == before + code[..b]
        invariant nbits < 8 && Packing(bytes, acc, nbits, done)
      {
        var x := ShiftedBit(c, l - 1 - b);
        CodeBit(c, l, b);
        PushBit(bytes, acc, nbits, done, x);
        assert code[..b + 1] == code[..b] + [x];
        acc := (2 * acc + x) % WORD;
        nbits := nbits + 1;
        done := done + [x];
        if nbits == 8 {
          bytes := bytes + [acc % 256];
          acc, nbits := 0, 0;
        }
      }
      assert code[..l] == code;
      assert hi[..i + 1][..i] == hi[..i];
    }
    assert hi[..|hi|] == hi;
    if nbits > 0 {
      PadLast(bytes, acc, nbits, done);
      bytes := bytes + [ShiftLeft(acc, 8 - nbits) % 256];
    } else {
      AllPacked(bytes, acc, done);
    }
  }

  // ---- the decoder ----------------------------------------------------------------------

  /** Subtraction of unsigned 32-bit words. */
  function WordMinus(a: nat, b: nat): (r: nat)
    ensures r < WORD
  {
    (a - b) % WORD
  }

  lemma WordMinusInRange(a: nat, b: nat)
    ensures b <= a < WORD ==> WordMinus(a, b) == a - b
  {
  }

  /** Whether the value `cur` of `l` bits counts as a code of that length. */
  predicate Matches(len: seq<nat>, l: nat, cur: nat) {
    Codes(len, l) != 0 && WordMinus(cur, FirstCode(len, l)) < Codes(len, l)
  }

  /** Extends `cur`, read from `l` bits before `pos`, until it is a code. Gives the symbol and the
      position after it. */
  function DecodeSymbol(len: seq<nat>, maxLen: nat, bits: seq<bit>, pos: nat, cur: nat, l: nat): Result<(nat, nat), DecodeError>
    requires pos <= |bits|
    decreases |bits| - pos
  {
    if pos == |bits| then Err(Underrun)
    else
      var cur' := (2 * cur + bits[pos]) % WORD;
      if l + 1 > maxLen then Err(NoCode)
      else if Matches(len, l + 1, cur') then
        Ok((SymbolsOfLength(len, l + 1, |len|)[WordMinus(cur', FirstCode(len, l + 1))], pos + 1))
      else DecodeSymbol(len, maxLen, bits, pos + 1, cur', l + 1)
  }

  lemma {:induction false} DecodeSymbolRange(len: seq<nat>, maxLen: nat, bits: seq<bit>, pos: nat, cur: nat, l: nat)
    requires pos <= |bits|
    ensures var r := DecodeSymbol(len, maxLen, bits, pos, cur, l);
      r.Ok? ==> r.value.0 < |len| && pos < r.value.1 <= |bits|
    decreases |bits| - pos
  {
    if pos < |bits| {
      DecodeSymbolRange(len, maxLen, bits, pos + 1, (2 * cur + bits[pos]) % WORD, l + 1);
    }
  }

  /** The next `n` symbols from position `pos`. */
  function DecodeMany(len: seq<nat>, maxLen: nat, bits: seq<bit>, pos: nat, n: nat): Result<seq<nat>, DecodeError>
    requires pos <= |bits|
    decreases n
  {
    if n == 0 then Ok([])
    else
      DecodeSymbolRange(len, maxLen, bits, pos, 0, 0);
      match DecodeSymbol(len, maxLen, bits, pos, 0, 0)
      case Err(e) => Err(e)
      case Ok((s, next)) =>
        match DecodeMany(len, maxLen, bits, next, n - 1)
        case Err(e) => Err(e)
        case Ok(rest) => Ok([s] + rest)
  }

  function Bits(stream: seq<byte>): (r: seq<bit>)
    ensures |r| == 8 * |stream|
  {
    seq(8 * |stream|, i requires 0 <= i < 8 * |stream| => BitAt(stream, i))
  }

  lemma ShortCodesAreSmall(l: nat)
    requires l <= MAX_LEN
    ensures Pow2(l) <= 0x100_0000 < WORD
  {
    Pow2Monotone(l, MAX_LEN);
    Pow2Values();
  }

  /** A value matches inside a code only at the code's own length. */
  lemma MatchOnlyAtEnd(len: seq<nat>, s: nat, k: nat)
    requires PrefixCode(len) && s < |len| && 0 < k <= len[s]
    ensures var cur := BitsValue(SymbolBits(len, s)[..k]);
      && cur < WORD
      && (Matches(len, k, cur) <==> k == len[s])
      && (k == len[s] ==> WordMinus(cur, FirstCode(len, k)) == Count(len, k, s))
  {
    ShortCodesAreSmall(k);
    var cur := BitsValue(SymbolBits(len, s)[..k]);
    if k == len[s] {
      CodeFits(len, s);
      assert SymbolBits(len, s)[..k] == SymbolBits(len, s);
      BitsOfValue(Code(len, s), k);
      assert cur == FirstCode(len, k) + Count(len, k, s);
    } else {
      PrefixPassesShorterCodes(len, s, k);
      assert FirstCode(len, k) + Codes(len, k) <= cur;
    }
    WordMinusInRange(cur, FirstCode(len, k));
  }

  /** A code in the stream is decoded as its symbol, from any place inside it. */
  lemma {:induction false} DecodeFinds(len: seq<nat>, maxLen: nat, bits: seq<bit>, start: nat, s: nat, k: nat)
    requires PrefixCode(len) && s < |len| && k < len[s] <= maxLen
    requires start + len[s] <= |bits| && bits[start..start + len[s]] == SymbolBits(len, s)
    ensures DecodeSymbol(len, maxLen, bits, start + k, BitsValue(SymbolBits(len, s)[..k]), k) == Ok((s, start + len[s]))
    decreases len[s] - k
  {
    hide PrefixCode;
    hide Matches;
    hide WordMinus;
    hide Code;
    hide Codes;
    hide Count;
    hide FirstCode;
    hide SymbolsOfLength;
    hide CodeBits;
    var code := SymbolBits(len, s);
    assert bits[start + k] == bits[start..start + len[s]][k] == code[k];
    PrefixGrows(code, k);
    MatchOnlyAtEnd(len, s, k + 1);
    DecodeSymbolStep(len, maxLen, bits, start + k, BitsValue(code[..k]), k);
    hide DecodeSymbol;
    if k + 1 < len[s] {
      DecodeFinds(len, maxLen, bits, start, s, k + 1);
    } else {
      SymbolAtRank(len, s, |len|);
    }
  }

  lemma PrefixGrows(code: seq<bit>, k: nat)
    requires k < |code|
    ensures BitsValue(code[..k + 1]) == 2 * BitsValue(code[..k]) + code[k]
  {
    assert code[..k + 1][..k] == code[..k] && code[..k + 1][k] == code[k];
  }

  lemma DecodeSymbolStep(len: seq<nat>, maxLen: nat, bits: seq<bit>, pos: nat, cur: nat, l: nat)
    requires pos < |bits| && l < maxLen && 2 * cur + bits[pos] < WORD
    ensures var cur' := 2 * cur + bits[pos];
      DecodeSymbol(len, maxLen, bits, pos, cur, l)
      == if Matches(len, l + 1, cur') then
           Ok((SymbolsOfLength(len, l + 1, |len|)[WordMinus(cur', FirstCode(len, l + 1))], pos + 1))
         else DecodeSymbol(len, maxLen, bits, pos + 1, cur', l + 1)
  {
  }

  lemma {:induction false} AllBitsConcat(a: seq<byte>, b: seq<byte>, len: seq<nat>)
    requires |len| == ALPHABET
    ensures AllBits(a + b, len) == AllBits(a, len) + AllBits(b, len)
  {
    if b == [] {
      assert a + b == a;
    } else {
      hide SymbolBits;
      var n := |b| - 1;
      assert (a + b)[..|a + b| - 1] == a + b[..n] && (a + b)[|a + b| - 1] == b[n];
      AllBitsConcat(a, b[..n], len);
      Associative(AllBits(a, len), AllBits(b[..n], len), SymbolBits(len, b[n]));
    }
  }

  lemma Associative<T>(x: seq<T>, y: seq<T>, z: seq<T>)
    ensures x + y + z == x + (y + z)
  {
  }

  lemma FirstSymbolBits(hi: seq<byte>, len: seq<nat>)
    requires |len| == ALPHABET && hi != []
    ensures AllBits(hi, len) == SymbolBits(len, hi[0]) + AllBits(hi[1..], len)
    ensures |SymbolBits(len, hi[0])| == len[hi[0]]
  {
    hide SymbolBits;
    assert hi == [hi[0]] + hi[1..];
    assert [hi[0]][..0] == [];
    AllBitsConcat([hi[0]], hi[1..], len);
    SymbolBitsLength(len, hi[0]);
  }

  lemma SymbolBitsLength(len: seq<nat>, s: nat)
    requires s < |len|
    ensures |SymbolBits(len, s)| == len[s]
  {
  }

  lemma Apart<T>(xs: seq<T>, at: nat, a: seq<T>, b: seq<T>)
    requires at + |a + b| <= |xs| && xs[at..at + |a + b|] == a + b
    ensures xs[at..at + |a|] == a && xs[at + |a|..at + |a| + |b|] == b
  {
    assert xs[at..at + |a|] == xs[at..at + |a + b|][..|a|] == (a + b)[..|a|];
    assert xs[at + |a|..at + |a| + |b|] == xs[at..at + |a + b|][|a|..] == (a + b)[|a|..];
  }

  /** Every byte of `hi` has a code of a prefix code. */
  ghost predicate Coded(hi: seq<byte>, len: seq<nat>, maxLen: nat) {
    PrefixCode(len) && forall i :: 0 <= i < |hi| ==> 0 < len[hi[i]] <= maxLen
  }

  lemma CodedParts(hi: seq<byte>, len: seq<nat>, maxLen: nat)
    requires Coded(hi, len, maxLen) && hi != []
    ensures PrefixCode(len) && |len| == ALPHABET && 0 < len[hi[0]] <= maxLen && Coded(hi[1..], len, maxLen)
  {
  }

  /** Decoding a stream that starts with the codes of `hi` gives `hi`. */
  lemma {:induction false} DecodeManyFinds(hi: seq<byte>, len: seq<nat>, maxLen: nat, bits: seq<bit>, pos: nat)
    requires |len| == ALPHABET && Coded(hi, len, maxLen)
    requires pos + |AllBits(hi, len)| <= |bits|
    requires bits[pos..pos + |AllBits(hi, len)|] == AllBits(hi, len)
    ensures DecodeMany(len, maxLen, bits, pos, |hi|) == Ok(hi)
  {
    hide Coded;
    hide PrefixCode;
    hide AllBits;
    hide SymbolBits;
    hide DecodeMany;
    if hi == [] {
      NothingDecoded(len, maxLen, bits, pos);
    } else {
      CodedParts(hi, len, maxLen);
      FirstSymbolBits(hi, len);
      var s, tail := hi[0], hi[1..];
      Apart(bits, pos, SymbolBits(len, s), AllBits(tail, len));
      FirstDecoded(len, maxLen, bits, pos, s);
      DecodeManyFinds(tail, len, maxLen, bits, pos + len[s]);
      DecodeManyStep(len, maxLen, bits, pos, |hi|, s, pos + len[s], tail);
      HeadAndTail(hi);
    }
  }

  lemma NothingDecoded(len: seq<nat>, maxLen: nat, bits: seq<bit>, pos: nat)
    requires pos <= |bits|
    ensures DecodeMany(len, maxLen, bits, pos, 0) == Ok([])
  {
  }

  lemma HeadAndTail<T>(xs: seq<T>)
    requires xs != []
    ensures [xs[0]] + xs[1..] == xs
  {
  }

  lemma FirstDecoded(len: seq<nat>, maxLen: nat, bits: seq<bit>, pos: nat, s: nat)
    requires PrefixCode(len) && s < |len| && 0 < len[s] <= maxLen
    requires pos + len[s] <= |bits| && bits[pos..pos + len[s]] == SymbolBits(len, s)
    ensures DecodeSymbol(len, maxLen, bits, pos, 0, 0) == Ok((s, pos + len[s]))
  {
    hide DecodeSymbol;
    hide PrefixCode;
    assert SymbolBits(len, s)[..0] == [];
    hide SymbolBits;
    DecodeFinds(len, maxLen, bits, pos, s, 0);
  }

  lemma DecodeManyStep(len: seq<nat>, maxLen: nat, bits: seq<bit>, pos: nat, n: nat, s: nat, next: nat, rest: seq<nat>)
    requires pos <= |bits| && next <= |bits| && n > 0
    requires DecodeSymbol(len, maxLen, bits, pos, 0, 0) == Ok((s, next))
    requires DecodeMany(len, maxLen, bits, next, n - 1) == Ok(rest)
    ensures DecodeMany(len, maxLen, bits, pos, n) == Ok([s] + rest)
  {
    hide DecodeSymbol;
  }

  // ---- what decodes is what was encoded ----------------------------------------------------------

  lemma {:induction false} BitsOfPrefix(bits: seq<bit>)
    ensures CodeBits(BitsValue(bits), |bits|) == bits
  {
    if bits != [] {
      BitsOfPrefix(bits[..|bits| - 1]);
    }
  }

  lemma NextPrefix(bits: seq<bit>, start: nat, pos: nat)
    requires start <= pos < |bits| && pos - start < MAX_LEN
    ensures BitsValue(bits[start..pos + 1]) == 2 * BitsValue(bits[start..pos]) + bits[pos] < WORD
  {
    assert bits[start..pos + 1][..pos - start] == bits[start..pos];
    ShortCodesAreSmall(pos + 1 - start);
  }

  /** A match, of any table, is the code of the symbol it finds. */
  lemma MatchIsCode(len: seq<nat>, l: nat, cur: nat)
    requires |len| == ALPHABET && 0 < l <= MAX_LEN && cur < 0x100_0000 && Matches(len, l, cur)
    ensures var s := SymbolsOfLength(len, l, |len|)[WordMinus(cur, FirstCode(len, l))];
      s < |len| && len[s] == l && SymbolBits(len, s) == CodeBits(cur, l)
  {
    CodeCounterBound(len, l);
    MatchInRange(cur, FirstCode(len, l), Codes(len, l));
    hide WordMinus;
    hide CodeBits;
    hide FirstCode;
    hide SymbolsOfLength;
    RankOfSymbol(len, l, |len|, WordMinus(cur, FirstCode(len, l)));
  }

  lemma MatchInRange(cur: nat, first: nat, n: nat)
    requires cur < 0x100_0000 && first + n <= 0x8000_0000 && WordMinus(cur, first) < n
    ensures first <= cur && WordMinus(cur, first) == cur - first
  {
  }

  /** With any table, the bits a symbol was read from are the symbol's code. */
  lemma {:induction false} SymbolWasEncoded(len: seq<nat>, maxLen: nat, bits: seq<bit>, start: nat, pos: nat)
    requires |len| == ALPHABET && maxLen <= MAX_LEN && start <= pos <= |bits| && pos - start <= maxLen
    ensures var r := DecodeSymbol(len, maxLen, bits, pos, BitsValue(bits[start..pos]), pos - start);
      r.Ok? ==> && r.value.0 < ALPHABET && start + len[r.value.0] == r.value.1 <= |bits|
                && bits[start..r.value.1] == SymbolBits(len, r.value.0)
    decreases |bits| - pos
  {
    hide Matches;
    hide Code;
    hide FirstCode;
    hide Codes;
    hide SymbolsOfLength;
    hide BitsValue;
    hide CodeBits;
    if pos < |bits| && pos - start < maxLen {
      NextPrefix(bits, start, pos);
      var cur := BitsValue(bits[start..pos + 1]);
      DecodeSymbolStep(len, maxLen, bits, pos, BitsValue(bits[start..pos]), pos - start);
      if Matches(len, pos + 1 - start, cur) {
        ShortCodesAreSmall(pos + 1 - start);
        MatchIsCode(len, pos + 1 - start, cur);
        BitsOfPrefix(bits[start..pos + 1]);
        assert |bits[start..pos + 1]| == pos + 1 - start;
      } else {
        SymbolWasEncoded(len, maxLen, bits, start, pos + 1);
      }
    }
  }

  /** With any table, what decodes was read from its own codes. */
  lemma {:induction false} ManyWereEncoded(len: seq<nat>, maxLen: nat, bits: seq<bit>, pos: nat, hi: seq<byte>)
    requires |len| == ALPHABET && maxLen <= MAX_LEN && pos <= |bits|
    requires DecodeMany(len, maxLen, bits, pos, |hi|) == Ok(hi)
    ensures pos + |AllBits(hi, len)| <= |bits| && bits[pos..pos + |AllBits(hi, len)|] == AllBits(hi, len)
    decreases |hi|
  {
    hide DecodeSymbol;
    hide AllBits;
    hide SymbolBits;
    if hi == [] {
      NoBits(len);
    } else {
      var next := FirstOfMany(len, maxLen, bits, pos, hi);
      ManyWereEncoded(len, maxLen, bits, next, hi[1..]);
      FirstSymbolBits(hi, len);
      assert bits[pos..next + |AllBits(hi[1..], len)|] == bits[pos..next] + bits[next..next + |AllBits(hi[1..], len)|];
    }
  }

  lemma NoBits(len: seq<nat>)
    requires |len| == ALPHABET
    ensures AllBits([], len) == []
  {
  }

  lemma FirstOfMany(len: seq<nat>, maxLen: nat, bits: seq<bit>, pos: nat, hi: seq<byte>) returns (next: nat)
    requires |len| == ALPHABET && maxLen <= MAX_LEN && pos <= |bits| && hi != []
    requires DecodeMany(len, maxLen, bits, pos, |hi|) == Ok(hi)
    ensures pos <= next <= |bits| && next == pos + len[hi[0]] && bits[pos..next] == SymbolBits(len, hi[0])
    ensures DecodeMany(len, maxLen, bits, next, |hi| - 1) == Ok(hi[1..])
  {
    hide DecodeSymbol;
    hide SymbolBits;
    assert bits[pos..pos] == [] && BitsValue([]) == 0;
    SymbolWasEncoded(len, maxLen, bits, pos, pos);
    DecodeSymbolRange(len, maxLen, bits, pos, 0, 0);
    var (s, after) := DecodeSymbol(len, maxLen, bits, pos, 0, 0).value;
    next := after;
    var rest := DecodeMany(len, maxLen, bits, next, |hi| - 1).value;
    assert hi == [s] + rest;
    assert hi[1..] == rest;
  }

  /** Where the code of an element stands in the stream, and how long the stream is. */
  lemma {:induction false} CodeInStream(hi: seq<byte>, len: seq<nat>, i: nat)
    requires |len| == ALPHABET && i <= |hi|
    ensures var at := Sum(seq(i, j requires 0 <= j < i => len[hi[j]]));
      && 0 <= at <= |AllBits(hi, len)| && (i == |hi| ==> at == |AllBits(hi, len)|)
      && (i < |hi| ==> at + len[hi[i]] <= |AllBits(hi, len)|
                       && AllBits(hi, len)[at..at + len[hi[i]]] == SymbolBits(len, hi[i]))
    decreases |hi|
  {
    hide SymbolBits;
    var n := |hi| - 1;
    if hi == [] {
      assert Sum([]) == 0;
    } else if i <= n {
      CodeInStream(hi[..n], len, i);
      SymbolBitsLength(len, hi[n]);
      assert seq(i, j requires 0 <= j < i => len[hi[j]]) == seq(i, j requires 0 <= j < i => len[hi[..n][j]]);
    } else {
      CodeInStream(hi[..n], len, n);
      SymbolBitsLength(len, hi[n]);
      var before := seq(n, j requires 0 <= j < n => len[hi[..n][j]]);
      assert seq(i, j requires 0 <= j < i => len[hi[j]]) == before + [len[hi[n]]];
      SumConcat(before, [len[hi[n]]]);
      assert Sum([len[hi[n]]]) == len[hi[n]];
    }
  }

  /** Round trip of the stream: what was packed is decoded, whatever follows it in the last byte. */
  lemma StreamRoundTrip(hi: seq<byte>, len: seq<nat>, maxLen: nat, stream: seq<byte>)
    requires |len| == ALPHABET && Coded(hi, len, maxLen)
    requires Packed(stream, AllBits(hi, len))
    ensures DecodeMany(len, maxLen, Bits(stream), 0, |hi|) == Ok(hi)
  {
    var all := AllBits(hi, len);
    assert Bits(stream)[0..|all|] == all;
    DecodeManyFinds(hi, len, maxLen, Bits(stream), 0);
  }
}
