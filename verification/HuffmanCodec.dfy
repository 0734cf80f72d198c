/**
 * The f16 entropy coder: the high bytes of the elements are Huffman coded, the low bytes stored
 * as they are. A blob is the element count, the length of the bit stream, the 256 code lengths,
 * the bit stream and the low bytes.
 */
module HuffmanCodec {
  import opened Results
  import opened Arith
  import opened LittleEndian
  import opened HuffmanOptimality
  import opened HuffmanLengths
  import opened CanonicalCode
  import opened HuffmanStream

  const BLOB_HEADER: nat := 16 + ALPHABET

  // ---- planes -------------------------------------------------------------------------------

  function LowPlane(raw: seq<byte>): (r: seq<byte>)
    ensures |r| == |raw| / 2
  {
    seq(|raw| / 2, i requires 0 <= i < |raw| / 2 => raw[2 * i])
  }

  function HighPlane(raw: seq<byte>): (r: seq<byte>)
    ensures |r| == |raw| / 2
  {
    seq(|raw| / 2, i requires 0 <= i < |raw| / 2 => raw[2 * i + 1])
  }

  function Interleave(lo: seq<byte>, hi: seq<byte>): (r: seq<byte>)
    requires |lo| == |hi|
    ensures |r| == 2 * |lo|
  {
    seq(2 * |lo|, i requires 0 <= i < 2 * |lo| => if i % 2 == 0 then lo[i / 2] else hi[i / 2])
  }

  lemma PlanesRoundTrip(raw: seq<byte>)
    requires |raw| % 2 == 0
    ensures Interleave(LowPlane(raw), HighPlane(raw)) == raw
  {
    var r := Interleave(LowPlane(raw), HighPlane(raw));
    forall i | 0 <= i < |raw| ensures r[i] == raw[i] {
      assert i == 2 * (i / 2) + i % 2;
    }
  }

  /** How often each byte value occurs. */
  function Frequencies(hi: seq<byte>): (r: seq<nat>)
    ensures |r| == ALPHABET
  {
    if hi == [] then seq(ALPHABET, _ => 0)
    else
      var f := Frequencies(hi[..|hi| - 1]);
      f[hi[|hi| - 1] := f[hi[|hi| - 1]] + 1]
  }

  lemma {:induction false} OccurringSymbols(hi: seq<byte>)
    ensures forall i :: 0 <= i < |hi| ==> Frequencies(hi)[hi[i]] > 0
    ensures hi != [] ==> exists s :: 0 <= s < ALPHABET && Frequencies(hi)[s] > 0
  {
    if hi != [] {
      OccurringSymbols(hi[..|hi| - 1]);
      assert Frequencies(hi)[hi[|hi| - 1]] > 0;
    }
  }

  /** The stream is as long as the cost that the code lengths minimise. */
  lemma {:induction false} StreamLength(hi: seq<byte>, len: seq<nat>)
    requires |len| == ALPHABET
    ensures |AllBits(hi, len)| == Cost(Frequencies(hi), len)
  {
    hide Cost;
    if hi == [] {
      ZeroCost(len);
    } else {
      var n := |hi| - 1;
      StreamLength(hi[..n], len);
      FrequencyCost(Frequencies(hi[..n]), len, hi[n]);
    }
  }

  lemma {:induction false} ZeroCost(len: seq<nat>)
    ensures Cost(seq(|len|, _ => 0), len) == 0
  {
    if len != [] {
      ZeroCost(len[1..]);
      assert Products(seq(|len|, _ => 0), len)[1..] == Products(seq(|len| - 1, _ => 0), len[1..]);
    }
  }

  lemma FrequencyCost(freq: seq<nat>, len: seq<nat>, s: nat)
    requires s < |freq| == |len|
    ensures Cost(freq[s := freq[s] + 1], len) == Cost(freq, len) + len[s]
  {
    assert (freq[s] + 1) * len[s] == freq[s] * len[s] + len[s];
    assert Products(freq[s := freq[s] + 1], len) == Products(freq, len)[s := freq[s] * len[s] + len[s]];
    SumUpdate(Products(freq, len), s, freq[s] * len[s] + len[s]);
  }

  method SplitPlanes(raw: seq<byte>) returns (lo: seq<byte>, hi: seq<byte>, freq: seq<nat>)
    requires |raw| % 2 == 0
    ensures lo == LowPlane(raw) && hi == HighPlane(raw) && freq == Frequencies(HighPlane(raw))
  {
    lo, hi, freq := [], [], seq(ALPHABET, _ => 0);
    for i := 0 to |raw| / 2
      invariant lo == LowPlane(raw)[..i] && hi == HighPlane(raw)[..i] && freq == Frequencies(hi)
    {
      var h := raw[2 * i + 1];
      lo, hi := lo + [raw[2 * i]], hi + [h];
      assert hi[..i] == HighPlane(raw)[..i];
      freq := freq[h := freq[h] + 1];
    }
  }

  // ---- code tables ----------------------------------------------------------------------------

  lemma CodeIs(len: seq<nat>, s: nat)
    requires s < |len|
    ensures Code(len, s) == FirstCode(len, len[s]) + Count(len, len[s], s)
  {
  }

  method CountCodes(len: seq<nat>) returns (blCount: seq<nat>)
    requires forall s :: 0 <= s < |len| ==> len[s] <= MAX_LEN
    ensures |blCount| == MAX_LEN + 1
    ensures forall l :: 0 <= l <= MAX_LEN ==> blCount[l] == Codes(len, l)
  {
    blCount := seq(MAX_LEN + 1, _ => 0);
    for s := 0 to |len|
      invariant |blCount| == MAX_LEN + 1
      invariant forall l :: 0 <= l <= MAX_LEN ==> blCount[l] == Count(len, l, s)
    {
      if len[s] > 0 {
        blCount := blCount[len[s] := blCount[len[s]] + 1];
      }
    }
  }

  lemma FirstCodeZero(len: seq<nat>)
    ensures FirstCode(len, 0) == 0
  {
  }

  lemma FirstCodeStep(len: seq<nat>, l: nat)
    requires |len| == ALPHABET && 0 < l <= MAX_LEN
    ensures FirstCode(len, l) == 2 * (FirstCode(len, l - 1) + Codes(len, l - 1)) < WORD
  {
    CodeCounterBound(len, l);
  }

  method FirstCodes(len: seq<nat>, maxLen: nat) returns (nextCode: seq<nat>)
    requires |len| == ALPHABET && maxLen <= MAX_LEN
    requires forall s :: 0 <= s < ALPHABET ==> len[s] <= MAX_LEN
    ensures |nextCode| == MAX_LEN + 1
    ensures forall l :: 1 <= l <= maxLen ==> nextCode[l] == FirstCode(len, l)
  {
    hide FirstCode;
    var blCount := CountCodes(len);
    FirstCodeZero(len);
    nextCode := seq(MAX_LEN + 1, _ => 0);
    var code: nat := 0;
    for l := 1 to maxLen + 1
      invariant |nextCode| == MAX_LEN + 1 && code == FirstCode(len, l - 1)
      invariant forall k :: 1 <= k < l ==> nextCode[k] == FirstCode(len, k)
    {
      FirstCodeStep(len, l);
      code := ((code + blCount[l - 1]) * 2) % WORD;
      nextCode := nextCode[l := code];
    }
  }

  /** Hands out the codes of each length in symbol order. */
  method AssignCanonicalCodes(len: seq<nat>, maxLen: nat) returns (symCode: seq<nat>)
    requires PrefixCode(len) && maxLen <= MAX_LEN
    requires forall s :: 0 <= s < ALPHABET ==> len[s] <= maxLen
    ensures |symCode| == ALPHABET
    ensures forall s :: 0 <= s < ALPHABET && len[s] > 0 ==> symCode[s] == Code(len, s) < Pow2(len[s])
  {
    hide TableKraft;
    hide Pow2;
    hide Code;
    hide FirstCode;
    var nextCode := FirstCodes(len, maxLen);
    symCode := seq(ALPHABET, _ => 0);
    for s := 0 to ALPHABET
      invariant |symCode| == ALPHABET && |nextCode| == MAX_LEN + 1
      invariant forall k :: 1 <= k <= maxLen ==> nextCode[k] == FirstCode(len, k) + Count(len, k, s)
      invariant forall t :: 0 <= t < s && len[t] > 0 ==> symCode[t] == Code(len, t) < Pow2(len[t])
    {
      if len[s] > 0 {
        CodeFits(len, s);
        CodeIs(len, s);
        symCode := symCode[s := nextCode[len[s]]];
        nextCode := nextCode[len[s] := nextCode[len[s]] + 1];
      }
    }
  }

  /** The longest length of a table. */
  function Longest(len: seq<nat>): (r: nat)
    ensures forall s :: 0 <= s < |len| ==> len[s] <= r
    ensures r == 0 || r in len
  {
    if len == [] then 0
    else Max(Longest(len[..|len| - 1]), len[|len| - 1])
  }

  method HistogramCodeLengths(lens: seq<byte>) returns (r: Result<(seq<nat>, nat), DecodeError>)
    requires |lens| == ALPHABET
    ensures r.Err? <==> exists s :: 0 <= s < ALPHABET && lens[s] > MAX_LEN
    ensures r.Err? ==> r.error == LengthCap
    ensures r.Ok? ==> |r.value.0| == MAX_LEN + 1 && r.value.1 == Longest(lens)
    ensures r.Ok? ==> forall l :: 0 <= l <= MAX_LEN ==> r.value.0[l] == Codes(lens, l)
  {
    var blCount: seq<nat> := seq(MAX_LEN + 1, _ => 0);
    var maxLen := 0;
    for s := 0 to ALPHABET
      invariant |blCount| == MAX_LEN + 1 && maxLen == Longest(lens[..s])
      invariant forall t :: 0 <= t < s ==> lens[t] <= MAX_LEN
      invariant forall l :: 0 <= l <= MAX_LEN ==> blCount[l] == Count(lens, l, s)
    {
      var l := lens[s];
      if l > MAX_LEN {
        return Err(LengthCap);
      }
      assert lens[..s + 1][..s] == lens[..s];
      if l > 0 {
        blCount := blCount[l := blCount[l] + 1];
        maxLen := Max(maxLen, l);
      }
    }
    assert lens[..ALPHABET] == lens;
    return Ok((blCount, maxLen));
  }

  /** First codes, first indices and the symbols by length and then by symbol. */
  ghost predicate DecodeTables(lens: seq<nat>, maxLen: nat, firstCode: seq<nat>, firstIndex: seq<nat>, ordered: seq<nat>) {
    && |firstCode| == |firstIndex| == MAX_LEN + 1 && |ordered| == |lens|
    && (forall l :: 1 <= l <= maxLen <= MAX_LEN ==> firstCode[l] == FirstCode(lens, l) && firstIndex[l] == FirstIndex(lens, l))
    && (forall l, i :: 1 <= l <= maxLen && 0 <= i < Codes(lens, l) ==> Looked(lens, ordered, l, i))
  }

  ghost predicate Looked(lens: seq<nat>, ordered: seq<nat>, l: nat, i: nat)
    requires i < Codes(lens, l)
  {
    FirstIndex(lens, l) + i < |ordered| && ordered[FirstIndex(lens, l) + i] == SymbolsOfLength(lens, l, |lens|)[i]
  }

  /** Writing the block of length `l` leaves the blocks of the shorter lengths alone. */
  method PlaceSymbols(lens: seq<byte>, l: nat, index: nat, ordered0: seq<nat>) returns (ordered: seq<nat>)
    requires |lens| == |ordered0| == ALPHABET && l > 0
    requires index == FirstIndex(lens, l)
    requires index + Codes(lens, l) <= ALPHABET
    ensures |ordered| == ALPHABET && ordered[..index] == ordered0[..index]
    ensures forall i :: 0 <= i < Codes(lens, l) ==> ordered[index + i] == SymbolsOfLength(lens, l, |lens|)[i]
  {
    ordered := ordered0;
    var placed := 0;
    for s := 0 to ALPHABET
      invariant |ordered| == ALPHABET && placed == Count(lens, l, s)
      invariant ordered[..index] == ordered0[..index]
      invariant placed <= Codes(lens, l)
      invariant forall i :: 0 <= i < placed ==> ordered[index + i] == SymbolsOfLength(lens, l, s)[i]
    {
      CountMonotone(lens, l, s + 1, ALPHABET);
      if lens[s] == l {
        ordered := ordered[index + placed := s];
        placed := placed + 1;
      }
    }
  }

  lemma {:induction false} IndexGrows(lens: seq<nat>, k: nat, l: nat)
    requires k < l
    ensures FirstIndex(lens, k) + Codes(lens, k) <= FirstIndex(lens, l)
    decreases l
  {
    if k < l - 1 {
      IndexGrows(lens, k, l - 1);
    }
  }

  method BuildDecodeTables(lens: seq<byte>, blCount: seq<nat>, maxLen: nat)
    returns (firstCode: seq<nat>, firstIndex: seq<nat>, ordered: seq<nat>)
    requires |lens| == ALPHABET && |blCount| == MAX_LEN + 1 && maxLen <= MAX_LEN
    requires forall l :: 0 <= l <= MAX_LEN ==> blCount[l] == Codes(lens, l)
    ensures DecodeTables(lens, maxLen, firstCode, firstIndex, ordered)
  {
    firstCode, firstIndex, ordered := seq(MAX_LEN + 1, _ => 0), seq(MAX_LEN + 1, _ => 0), seq(ALPHABET, _ => 0);
    var code: nat, index: nat := 0, 0;
    CountZero(lens, ALPHABET);
    for l := 1 to maxLen + 1
      invariant code == FirstCode(lens, l - 1) && index == FirstIndex(lens, l)
      invariant DecodeTables(lens, l - 1, firstCode, firstIndex, ordered)
    {
      CodeCounterBound(lens, l);
      code := ((code + blCount[l - 1]) * 2) % WORD;
      firstCode := firstCode[l := code];
      firstIndex := firstIndex[l := index];
      IndexInRange(lens, l);
      ghost var before := ordered;
      ordered := PlaceSymbols(lens, l, index, ordered);
      forall k, i | 1 <= k <= l && 0 <= i < Codes(lens, k) ensures Looked(lens, ordered, k, i) {
        if k < l {
          assert Looked(lens, before, k, i);
          IndexGrows(lens, k, l);
          assert ordered[..index][FirstIndex(lens, k) + i] == before[..index][FirstIndex(lens, k) + i];
        }
      }
      index := index + blCount[l];
    }
  }

  // ---- decoding ---------------------------------------------------------------------------

  function Prepend(done: seq<nat>, r: Result<seq<nat>, DecodeError>): Result<seq<nat>, DecodeError> {
    match r
    case Ok(rest) => Ok(done + rest)
    case Err(e) => Err(e)
  }

  /** Reads one symbol bit by bit. */
  method NextSymbol(stream: seq<byte>, start: nat, blCount: seq<nat>, maxLen: nat, firstCode: seq<nat>,
                    firstIndex: seq<nat>, ordered: seq<nat>, ghost lens: seq<nat>)
    returns (r: Result<(nat, nat), DecodeError>)
    requires start <= 8 * |stream| && |lens| == ALPHABET && maxLen <= MAX_LEN && |blCount| == MAX_LEN + 1
    requires forall l :: 0 <= l <= MAX_LEN ==> blCount[l] == Codes(lens, l)
    requires DecodeTables(lens, maxLen, firstCode, firstIndex, ordered)
    ensures r == DecodeSymbol(lens, maxLen, Bits(stream), start, 0, 0)
  {
    hide FirstCode;
    hide FirstIndex;
    hide Codes;
    hide SymbolsOfLength;
    hide BitAt;
    var bitpos, cur: nat, l: nat := start, 0, 0;
    while true
      invariant start <= bitpos <= 8 * |stream|
      invariant DecodeSymbol(lens, maxLen, Bits(stream), start, 0, 0) == DecodeSymbol(lens, maxLen, Bits(stream), bitpos, cur, l)
      decreases 8 * |stream| - bitpos
    {
      if bitpos >= 8 * |stream| {
        return Err(Underrun);
      }
      var b := BitAt(stream, bitpos);
      assert b == Bits(stream)[bitpos];
      bitpos := bitpos + 1;
      cur := (2 * cur + b) % WORD;
      l := l + 1;
      if l > maxLen {
        return Err(NoCode);
      }
      if blCount[l] != 0 && WordMinus(cur, firstCode[l]) < blCount[l] {
        ghost var i := WordMinus(cur, FirstCode(lens, l));
        assert Looked(lens, ordered, l, i);
        return Ok((ordered[firstIndex[l] + WordMinus(cur, firstCode[l])], bitpos));
      }
    }
  }

  method DecodeSymbols(stream: seq<byte>, lo: seq<byte>, blCount: seq<nat>, maxLen: nat, firstCode: seq<nat>,
                       firstIndex: seq<nat>, ordered: seq<nat>, ghost lens: seq<nat>, out: array<byte>)
    returns (r: Result<(), DecodeError>)
    requires |lens| == ALPHABET && maxLen <= MAX_LEN && |blCount| == MAX_LEN + 1
    requires forall l :: 0 <= l <= MAX_LEN ==> blCount[l] == Codes(lens, l)
    requires DecodeTables(lens, maxLen, firstCode, firstIndex, ordered)
    requires out.Length == 2 * |lo|
    modifies out
    ensures var d := DecodeMany(lens, maxLen, Bits(stream), 0, |lo|);
      && r == (if d.Ok? then Ok(()) else Err(d.error))
      && (d.Ok? ==> |d.value| == |lo| && (forall i :: 0 <= i < |lo| ==> d.value[i] < 256)
                    && out[..] == Interleave(lo, d.value))
  {
    hide Codes;
    hide DecodeTables;
    hide Bits;
    hide Interleave;
    hide DecodeSymbol;
    var bitpos: nat := 0;
    ghost var bits := Bits(stream);
    assert |bits| == 8 * |stream|;
    ghost var done: seq<byte> := [];
    PrependNothing(DecodeMany(lens, maxLen, bits, 0, |lo|));
    for i := 0 to |lo|
      invariant bitpos <= 8 * |stream| && |done| == i
      invariant DecodeMany(lens, maxLen, bits, 0, |lo|) == Prepend(done, DecodeMany(lens, maxLen, bits, bitpos, |lo| - i))
      invariant forall j :: 0 <= j < i ==> out[2 * j] == lo[j] && out[2 * j + 1] == done[j]
    {
      var next := NextSymbol(stream, bitpos, blCount, maxLen, firstCode, firstIndex, ordered, lens);
      DecodeSymbolRange(lens, maxLen, bits, bitpos, 0, 0);
      match next {
        case Err(e) => return Err(e);
        case Ok(found) =>
          assert DecodeMany(lens, maxLen, bits, 0, |lo|)
              == Prepend(done + [found.0], DecodeMany(lens, maxLen, bits, found.1, |lo| - i - 1)) by {
            PrependStep(done, found.0, DecodeMany(lens, maxLen, bits, found.1, |lo| - i - 1));
          }
          bitpos := found.1;
          out[2 * i] := lo[i];
          out[2 * i + 1] := found.0;
          done := done + [found.0];
      }
    }
    assert done + [] == done;
    InterleavedIs(out[..], lo, done);
    r := Ok(());
  }

  lemma InterleavedIs(s: seq<byte>, lo: seq<byte>, hi: seq<byte>)
    requires |s| == 2 * |lo| && |hi| == |lo|
    requires forall j :: 0 <= j < |lo| ==> s[2 * j] == lo[j] && s[2 * j + 1] == hi[j]
    ensures s == Interleave(lo, hi)
  {
    forall i | 0 <= i < |s| ensures s[i] == Interleave(lo, hi)[i] {
      assert i == 2 * (i / 2) + i % 2;
    }
  }

  lemma PrependNothing(r: Result<seq<nat>, DecodeError>)
    ensures Prepend([], r) == r
  {
    if r.Ok? {
      assert [] + r.value == r.value;
    }
  }

  lemma PrependStep(done: seq<nat>, s: nat, r: Result<seq<nat>, DecodeError>)
    ensures Prepend(done, Prepend([s], r)) == Prepend(done + [s], r)
  {
    if r.Ok? {
      assert done + ([s] + r.value) == done + [s] + r.value;
    }
  }

  /** What decompression of `blob` into `size` bytes comes to. */
  function Decompressed(blob: seq<byte>, size: nat): Result<seq<byte>, DecodeError>
    requires |blob| < U64 / 2
  {
    if |blob| < BLOB_HEADER then Err(ShortBlob)
    else
      var n := Get(blob[..8]);
      var hiBytes := Get(blob[8..16]);
      var lens := blob[16..BLOB_HEADER];
      if size != (2 * n) % U64 then Err(OutputSize)
      else if hiBytes + n + BLOB_HEADER != |blob| then Err(BlobSize)
      else if exists s :: 0 <= s < ALPHABET && lens[s] > MAX_LEN then Err(LengthCap)
      else
        var stream := blob[BLOB_HEADER..BLOB_HEADER + hiBytes];
        var lo := blob[BLOB_HEADER + hiBytes..];
        match DecodeMany(lens, Longest(lens), Bits(stream), 0, n)
        case Err(e) => Err(e)
        case Ok(hi) =>
          DecodeManyRange(lens, Longest(lens), Bits(stream), 0, n);
          Ok(Interleave(lo, hi))
  }

  lemma {:induction false} DecodeManyRange(len: seq<nat>, maxLen: nat, bits: seq<bit>, pos: nat, n: nat)
    requires |len| == ALPHABET && pos <= |bits|
    ensures var d := DecodeMany(len, maxLen, bits, pos, n);
      d.Ok? ==> |d.value| == n && forall i :: 0 <= i < n ==> d.value[i] < 256
    decreases n
  {
    if n > 0 {
      DecodeSymbolRange(len, maxLen, bits, pos, 0, 0);
      var r := DecodeSymbol(len, maxLen, bits, pos, 0, 0);
      if r.Ok? {
        DecodeManyRange(len, maxLen, bits, r.value.1, n - 1);
      }
    }
  }

  /** What decompression returns: the header counts the elements and the stream, and the low bytes are stored last. */
  lemma DecompressedIs(blob: seq<byte>, size: nat, raw: seq<byte>)
    requires |blob| < U64 / 2 && Decompressed(blob, size) == Ok(raw)
    ensures 272 <= |blob| && |raw| == size == 2 * Get(blob[..8]) && 272 + Get(blob[8..16]) + Get(blob[..8]) == |blob|
    ensures forall k :: 16 <= k < 272 ==> blob[k] <= 24
    ensures forall i :: 0 <= i < |raw| / 2 ==> raw[2 * i] == blob[|blob| - |raw| / 2 + i]
  {
    hide Get;
    hide DecodeMany;
    hide Bits;
    hide Longest;
    assert forall k :: 16 <= k < 272 ==> blob[k] == blob[16..BLOB_HEADER][k - 16];
    DecodeManyRange(blob[16..BLOB_HEADER], Longest(blob[16..BLOB_HEADER]),
                    Bits(blob[BLOB_HEADER..BLOB_HEADER + Get(blob[8..16])]), 0, Get(blob[..8]));
  }

  /** The errors, in the order in which they are found. */
  lemma DecompressedErrors(blob: seq<byte>, size: nat)
    requires |blob| < U64 / 2
    ensures Decompressed(blob, size) == Err(ShortBlob) <==> |blob| < 272
    ensures 272 <= |blob| ==>
      (Decompressed(blob, size) == Err(OutputSize) <==> size != 2 * Get(blob[..8]) % U64)
    ensures 272 <= |blob| && size == 2 * Get(blob[..8]) % U64 ==>
      (Decompressed(blob, size) == Err(BlobSize) <==> 272 + Get(blob[8..16]) + Get(blob[..8]) != |blob|)
    ensures 272 <= |blob| && size == 2 * Get(blob[..8]) % U64 && 272 + Get(blob[8..16]) + Get(blob[..8]) == |blob| ==>
      (Decompressed(blob, size) == Err(LengthCap) <==> exists k :: 16 <= k < 272 && blob[k] > 24)
  {
    hide Get;
    hide Bits;
    hide Longest;
    hide DecodeMany;
    if 272 <= |blob| && 272 + Get(blob[8..16]) + Get(blob[..8]) == |blob| {
      var lens := blob[16..BLOB_HEADER];
      StreamErrors(lens, Longest(lens), Bits(blob[BLOB_HEADER..BLOB_HEADER + Get(blob[8..16])]), 0, Get(blob[..8]));
      assert forall k :: 16 <= k < 272 ==> blob[k] == lens[k - 16];
      assert forall s :: 0 <= s < 256 ==> lens[s] == blob[16..272][s];
    }
  }

  lemma {:induction false} StreamErrors(len: seq<nat>, maxLen: nat, bits: seq<bit>, pos: nat, n: nat)
    requires pos <= |bits|
    ensures var d := DecodeMany(len, maxLen, bits, pos, n); d.Err? ==> d.error == Underrun || d.error == NoCode
    decreases n
  {
    if n > 0 {
      DecodeSymbolRange(len, maxLen, bits, pos, 0, 0);
      SymbolErrors(len, maxLen, bits, pos, 0, 0);
      var r := DecodeSymbol(len, maxLen, bits, pos, 0, 0);
      if r.Ok? {
        StreamErrors(len, maxLen, bits, r.value.1, n - 1);
      }
    }
  }

  lemma {:induction false} SymbolErrors(len: seq<nat>, maxLen: nat, bits: seq<bit>, pos: nat, cur: nat, l: nat)
    requires pos <= |bits|
    ensures var d := DecodeSymbol(len, maxLen, bits, pos, cur, l); d.Err? ==> d.error == Underrun || d.error == NoCode
    decreases |bits| - pos
  {
    if pos < |bits| {
      SymbolErrors(len, maxLen, bits, pos + 1, (2 * cur + bits[pos]) % WORD, l + 1);
    }
  }

  lemma DecompressedHigh(blob: seq<byte>, size: nat, raw: seq<byte>)
    requires |blob| < U64 / 2 && Decompressed(blob, size) == Ok(raw) && |blob| >= BLOB_HEADER
    requires BLOB_HEADER + Get(blob[8..16]) + Get(blob[..8]) == |blob| && |raw| == 2 * Get(blob[..8])
    ensures var lens := blob[16..BLOB_HEADER];
      && DecodeMany(lens, Longest(lens), Bits(blob[BLOB_HEADER..BLOB_HEADER + Get(blob[8..16])]), 0, Get(blob[..8])) == Ok(HighPlane(raw))
      && Longest(lens) <= MAX_LEN
  {
    hide Get;
    hide DecodeMany;
    hide Bits;
    hide Interleave;
    hide HighPlane;
    var lens := blob[16..BLOB_HEADER];
    var stream := blob[BLOB_HEADER..BLOB_HEADER + Get(blob[8..16])];
    DecodeManyRange(lens, Longest(lens), Bits(stream), 0, Get(blob[..8]));
    var hi := DecodeMany(lens, Longest(lens), Bits(stream), 0, Get(blob[..8])).value;
    HighOfInterleaved(blob[BLOB_HEADER + Get(blob[8..16])..], hi);
    assert Longest(lens) == 0 || Longest(lens) in lens;
  }

  lemma HighOfInterleaved(lo: seq<byte>, hi: seq<byte>)
    requires |lo| == |hi|
    ensures HighPlane(Interleave(lo, hi)) == hi
  {
    forall i | 0 <= i < |hi| ensures HighPlane(Interleave(lo, hi))[i] == hi[i] {
      assert (2 * i + 1) % 2 == 1 && (2 * i + 1) / 2 == i;
    }
  }

  /**
   * Bit `b` of the code of element `i`, whose high byte is `raw[2 * i + 1]`: it stands in the stream after the codes
   * of the elements before, each byte filled from its most significant bit.
   */
  lemma DecompressedBit(blob: seq<byte>, size: nat, raw: seq<byte>, i: nat, b: nat)
    requires |blob| < U64 / 2 && Decompressed(blob, size) == Ok(raw) && 272 <= |blob|
    requires i < |raw| / 2 && b < blob[16 + raw[2 * i + 1]]
    ensures |raw| / 2 <= |blob| - 272
    ensures var at := Sum(seq(i, j requires 0 <= j < i => blob[16 + raw[2 * j + 1]])) + b;
      && 0 <= at < 8 * (|blob| - 272 - |raw| / 2)
      && blob[272 + at / 8] / Pow2(7 - at % 8) % 2
         == Code(blob[16..272], raw[2 * i + 1]) / Pow2(blob[16 + raw[2 * i + 1]] - 1 - b) % 2
  {
    hide Get;
    hide DecodeMany;
    hide Longest;
    hide AllBits;
    hide Code;
    hide Interleave;
    hide Decompressed;
    hide CodeBits;
    DecompressedIs(blob, size, raw);
    DecompressedHigh(blob, size, raw);
    var lens, hi, s := blob[16..272], HighPlane(raw), raw[2 * i + 1];
    var stream := blob[BLOB_HEADER..BLOB_HEADER + Get(blob[8..16])];
    ManyWereEncoded(lens, Longest(lens), Bits(stream), 0, hi);
    CodeInStream(hi, lens, i);
    assert seq(i, j requires 0 <= j < i => lens[hi[j]]) == seq(i, j requires 0 <= j < i => blob[16 + raw[2 * j + 1]]);
    var at := Sum(seq(i, j requires 0 <= j < i => lens[hi[j]]));
    var all := AllBits(hi, lens);
    assert all[at..at + lens[s]][b] == all[at + b] == Bits(stream)[0..|all|][at + b] == BitAt(stream, at + b);
    CodeBit(Code(lens, s), lens[s], b);
  }

  /** Decodes into `out`. A blob that is too long, too short or otherwise malformed gives an error. */
  method DecompressF16(blob: seq<byte>, out: array<byte>) returns (r: Result<(), DecodeError>)
    requires |blob| < U64 / 2
    modifies out
    ensures var d := Decompressed(blob, out.Length);
      r == (if d.Ok? then Ok(()) else Err(d.error)) && (d.Ok? ==> out[..] == d.value)
  {
    if |blob| < BLOB_HEADER {
      return Err(ShortBlob);
    }
    var n := Get(blob[..8]);
    var hiBytes := Get(blob[8..16]);
    var lens := blob[16..BLOB_HEADER];
    if out.Length != (2 * n) % U64 {
      return Err(OutputSize);
    }
    // the two sums overflow exactly when they reach 2^64
    if hiBytes + n >= U64 || hiBytes + n + BLOB_HEADER >= U64 || hiBytes + n + BLOB_HEADER != |blob| {
      return Err(BlobSize);
    }
    var hist := HistogramCodeLengths(lens);
    match hist {
      case Err(e) => return Err(e);
      case Ok((blCount, maxLen)) =>
        var firstCode, firstIndex, ordered := BuildDecodeTables(lens, blCount, maxLen);
        r := DecodeSymbols(blob[BLOB_HEADER..BLOB_HEADER + hiBytes], blob[BLOB_HEADER + hiBytes..],
                           blCount, maxLen, firstCode, firstIndex, ordered, lens, out);
    }
  }

  // ---- encoding ---------------------------------------------------------------------------

  /** `blob` is the encoding of `raw` with the code lengths `len`. */
  ghost predicate Encodes(blob: seq<byte>, raw: seq<byte>, len: seq<byte>) {
    && PrefixCode(len) && |raw| % 2 == 0
    && (forall i :: 0 <= i < |raw| / 2 ==> 0 < len[HighPlane(raw)[i]])
    && exists stream: seq<byte> ::
        && Packed(stream, AllBits(HighPlane(raw), len))
        && blob == Put(|raw| / 2, 8) + Put(|stream|, 8) + len + stream + LowPlane(raw)
  }

  /** Round trip: decompressing an encoding of `raw` gives back `raw`. */
  lemma RoundTrip(blob: seq<byte>, raw: seq<byte>, len: seq<byte>)
    requires |raw| < U64 / 2 && |blob| < U64 / 2 && Encodes(blob, raw, len)
    ensures Decompressed(blob, |raw|) == Ok(raw)
  {
    var stream: seq<byte> :| Packed(stream, AllBits(HighPlane(raw), len))
      && blob == Put(|raw| / 2, 8) + Put(|stream|, 8) + len + stream + LowPlane(raw);
    BlobParts(blob, |raw| / 2, len, stream, LowPlane(raw));
    StreamRoundTrip(HighPlane(raw), len, Longest(len), stream);
    PlanesRoundTrip(raw);
    DecompressedParts(blob, |raw| / 2, len, stream, LowPlane(raw), HighPlane(raw));
  }

  /** Decompression of a blob whose parts are known and whose stream decodes to `hi`. */
  lemma DecompressedParts(blob: seq<byte>, n: nat, len: seq<byte>, stream: seq<byte>, lo: seq<byte>, hi: seq<byte>)
    requires |blob| < U64 / 2 && |len| == ALPHABET && |lo| == |hi| == n
    requires forall s :: 0 <= s < ALPHABET ==> len[s] <= MAX_LEN
    requires |blob| == BLOB_HEADER + |stream| + n
    requires Get(blob[..8]) == n && Get(blob[8..16]) == |stream| && blob[16..BLOB_HEADER] == len
    requires blob[BLOB_HEADER..BLOB_HEADER + |stream|] == stream && blob[BLOB_HEADER + |stream|..] == lo
    requires DecodeMany(len, Longest(len), Bits(stream), 0, n) == Ok(hi)
    ensures Decompressed(blob, 2 * n) == Ok(Interleave(lo, hi))
  {
    hide Interleave;
    hide DecodeMany;
    hide Bits;
    hide Get;
  }

  lemma BlobParts(blob: seq<byte>, n: nat, len: seq<byte>, stream: seq<byte>, lo: seq<byte>)
    requires |len| == ALPHABET && n < U64 && |stream| < U64
    requires blob == Put(n, 8) + Put(|stream|, 8) + len + stream + lo
    ensures |blob| == BLOB_HEADER + |stream| + |lo|
    ensures Get(blob[..8]) == n && Get(blob[8..16]) == |stream| && blob[16..BLOB_HEADER] == len
    ensures blob[BLOB_HEADER..BLOB_HEADER + |stream|] == stream && blob[BLOB_HEADER + |stream|..] == lo
  {
    hide Put;
    hide Get;
    WordSize();
    GetPut(n, 8);
    GetPut(|stream|, 8);
    assert blob[..8] == Put(n, 8);
    assert blob[8..16] == Put(|stream|, 8);
  }

  /** The parts of an encoding. The bits of its codes are those of `DecompressedBit`. */
  lemma BlobLayout(blob: seq<byte>, raw: seq<byte>, len: seq<byte>)
    requires |raw| < U64 / 2 && |blob| < U64 / 2 && Encodes(blob, raw, len)
    ensures |raw| % 2 == 0 && 272 + |raw| / 2 <= |blob| && |len| == 256 && blob[16..272] == len
    ensures Get(blob[..8]) == |raw| / 2 && Get(blob[8..16]) == |blob| - 272 - |raw| / 2
    ensures forall i :: 0 <= i < |raw| / 2 ==> blob[|blob| - |raw| / 2 + i] == raw[2 * i]
    ensures forall i :: 0 <= i < |raw| / 2 ==> 0 < len[raw[2 * i + 1]] <= 24
  {
    hide Put;
    hide Get;
    hide Packed;
    hide TableKraft;
    hide Decompressed;
    hide BitAt;
    hide LowPlane;
    RoundTrip(blob, raw, len);
    DecompressedIs(blob, |raw|, raw);
    HighBytes(raw);
    hide HighPlane;
    var stream: seq<byte> :| Packed(stream, AllBits(HighPlane(raw), len))
      && blob == Put(|raw| / 2, 8) + Put(|stream|, 8) + len + stream + LowPlane(raw);
    BlobParts(blob, |raw| / 2, len, stream, LowPlane(raw));
    forall i | 0 <= i < |raw| / 2 ensures 0 < len[raw[2 * i + 1]] <= 24 {
      assert HighPlane(raw)[i] == raw[2 * i + 1];
    }
  }

  lemma HighBytes(raw: seq<byte>)
    ensures forall i :: 0 <= i < |raw| / 2 ==> HighPlane(raw)[i] == raw[2 * i + 1]
  {
  }

  lemma PackedLength(bytes: seq<byte>, bits: seq<bit>)
    requires Packed(bytes, bits)
    ensures |bytes| == (|bits| + 7) / 8
  {
  }

  /** The size of the blob with the code lengths `len`. */
  function EncodedSize(raw: seq<byte>, len: seq<nat>): int
    requires |len| == ALPHABET
  {
    BLOB_HEADER + (Cost(Frequencies(HighPlane(raw)), len) + 7) / 8 + |raw| / 2
  }

  lemma LengthsKraftCode(freq: seq<nat>, len: seq<nat>, maxLen: nat)
    requires |freq| == |len| == ALPHABET && 0 < maxLen && |UsedWeights(freq)| > 0
    requires |UsedWeights(freq)| == 1 ==> forall d :: 1 <= d ==> TableKraft(len, d) == Pow2(d - 1)
    requires |UsedWeights(freq)| >= 2 ==> forall d :: maxLen <= d ==> TableKraft(len, d) == Pow2(d)
    ensures TableKraft(len, maxLen) <= Pow2(maxLen)
  {
    Pow2Monotone(maxLen - 1, maxLen);
  }

  /** What `CodeLengths` returns is a prefix code once no length exceeds the cap. */
  lemma LengthsArePrefixCode(freq: seq<nat>, len: seq<nat>, maxLen: nat)
    requires |freq| == |len| == ALPHABET && 0 < maxLen <= MAX_LEN && |UsedWeights(freq)| > 0
    requires forall s :: 0 <= s < ALPHABET ==> len[s] <= maxLen
    requires |UsedWeights(freq)| == 1 ==> forall d :: 1 <= d ==> TableKraft(len, d) == Pow2(d - 1)
    requires |UsedWeights(freq)| >= 2 ==> forall d :: maxLen <= d ==> TableKraft(len, d) == Pow2(d)
    ensures PrefixCode(len)
  {
    Pow2Monotone(MAX_LEN - 1, MAX_LEN);
  }

  /** The lengths satisfy Kraft's inequality, as those of a prefix code do. */
  ghost predicate KraftCode(len: seq<nat>, d: nat) {
    && |len| == ALPHABET
    && (forall s :: 0 <= s < ALPHABET ==> len[s] <= d)
    && TableKraft(len, d) <= Pow2(d)
  }

  /** No prefix code of any depth that has codes for the high bytes has a shorter stream. */
  ghost predicate Shortest(raw: seq<byte>, len: seq<nat>)
    requires |len| == ALPHABET
  {
    forall other: seq<nat>, d: nat :: KraftCode(other, d) && (forall i :: 0 <= i < |raw| / 2 ==> 0 < other[HighPlane(raw)[i]])
      ==> EncodedSize(raw, len) <= EncodedSize(raw, other)
  }

  /** A prefix code for the high bytes that occur, and for no others, with the shortest stream of all. */
  ghost predicate BestTable(raw: seq<byte>, len: seq<nat>) {
    && KraftCode(len, Longest(len))
    && (forall s :: 0 <= s < ALPHABET ==> (0 < len[s] <==> s in HighPlane(raw)))
    && Shortest(raw, len)
  }

  lemma {:induction false} UsedKraft(freq: seq<nat>, len: seq<nat>, d: nat)
    requires |len| == |freq|
    requires forall s :: 0 <= s < |freq| && freq[s] > 0 ==> 0 < len[s]
    ensures Kraft(UsedLengths(freq, len), d) <= TableKraft(len, d)
  {
    if freq != [] {
      var n := |freq| - 1;
      UsedKraft(freq[..n], len[..n], d);
      TableKraftAppend(len[..n], len[n], d);
      KraftAppend(UsedLengths(freq[..n], len[..n]), len[n], d);
      assert len[..n] + [len[n]] == len;
      assert freq[n] == 0 ==> UsedLengths(freq, len) == UsedLengths(freq[..n], len[..n]);
    }
  }

  lemma {:induction false} UsedCapped(freq: seq<nat>, len: seq<nat>, d: nat)
    requires |len| == |freq| && forall s :: 0 <= s < |freq| ==> len[s] <= d
    ensures forall i :: 0 <= i < |UsedLengths(freq, len)| ==> UsedLengths(freq, len)[i] <= d
  {
    if freq != [] {
      UsedCapped(freq[..|freq| - 1], len[..|freq| - 1], d);
    }
  }

  lemma {:induction false} ShorterCodesCostLess(freq: seq<nat>, len: seq<nat>, other: seq<nat>)
    requires |len| == |freq| == |other|
    requires forall s :: 0 <= s < |freq| && freq[s] > 0 ==> len[s] <= other[s]
    ensures Cost(freq, len) <= Cost(freq, other)
  {
    if freq != [] {
      var n := |freq| - 1;
      ShorterCodesCostLess(freq[..n], len[..n], other[..n]);
      CostAppend(freq[..n], len[..n], freq[n], len[n]);
      CostAppend(freq[..n], other[..n], freq[n], other[n]);
      assert freq == freq[..n] + [freq[n]] && len == len[..n] + [len[n]] && other == other[..n] + [other[n]];
      MulMonotone(len[n], other[n], freq[n]);
      assert freq[n] * len[n] == len[n] * freq[n] && freq[n] * other[n] == other[n] * freq[n];
    }
  }

  /** A symbol that occurs has a place in the high plane. */
  lemma {:induction false} FrequentSymbolOccurs(hi: seq<byte>, s: nat)
    requires s < ALPHABET && Frequencies(hi)[s] > 0
    ensures exists i :: 0 <= i < |hi| && hi[i] == s
  {
    var n := |hi| - 1;
    if hi[n] != s {
      FrequentSymbolOccurs(hi[..n], s);
      var i :| 0 <= i < n && hi[..n][i] == s;
      assert hi[i] == s;
    }
  }

  lemma LengthsAreShortest(raw: seq<byte>, len: seq<nat>)
    requires |raw| % 2 == 0 && |len| == ALPHABET
    requires var freq := Frequencies(HighPlane(raw));
      && UsedWeights(freq) != []
      && (forall s :: 0 <= s < ALPHABET && freq[s] > 0 && |UsedWeights(freq)| == 1 ==> len[s] <= 1)
      && (|UsedWeights(freq)| >= 2 ==> Optimal(freq, len))
    ensures Shortest(raw, len)
  {
    hide Cost;
    var freq := Frequencies(HighPlane(raw));
    forall other: seq<nat>, d: nat
      | KraftCode(other, d) && (forall i :: 0 <= i < |raw| / 2 ==> 0 < other[HighPlane(raw)[i]])
      ensures EncodedSize(raw, len) <= EncodedSize(raw, other)
    {
      forall s | 0 <= s < ALPHABET && freq[s] > 0 ensures 0 < other[s] {
        FrequentSymbolOccurs(HighPlane(raw), s);
      }
      if |UsedWeights(freq)| == 1 {
        ShorterCodesCostLess(freq, len, other);
      } else {
        UsedKraft(freq, other, d);
        UsedCapped(freq, other, d);
        assert Feasible(UsedLengths(freq, other), d);
      }
      assert Cost(freq, len) <= Cost(freq, other);
    }
  }

  /** What `CodeLengths` returns for the high bytes is the best table for them. */
  lemma LengthsAreBest(raw: seq<byte>, len: seq<nat>, maxLen: nat)
    requires |raw| % 2 == 0 && raw != [] && |len| == ALPHABET && Shortest(raw, len)
    requires forall s :: 0 <= s < ALPHABET ==> (0 < len[s] <==> 0 < Frequencies(HighPlane(raw))[s]) && len[s] <= maxLen
    requires exists s :: 0 <= s < ALPHABET && len[s] == maxLen
    requires TableKraft(len, maxLen) <= Pow2(maxLen)
    ensures BestTable(raw, len) && Longest(len) == maxLen
  {
    hide Frequencies;
    hide TableKraft;
    hide Shortest;
    var hi := HighPlane(raw);
    OccurringSymbols(hi);
    forall s | 0 <= s < ALPHABET ensures 0 < len[s] <==> s in hi {
      if 0 < Frequencies(hi)[s] {
        FrequentSymbolOccurs(hi, s);
      }
    }
    assert Longest(len) == maxLen;
  }

  /** No encoding of `raw`, with any other table, is smaller than the one with the shortest stream. */
  lemma NoBlobIsSmaller(raw: seq<byte>, len: seq<nat>, blob: seq<byte>, other: seq<byte>)
    requires |len| == ALPHABET && Shortest(raw, len) && Encodes(blob, raw, other)
    ensures EncodedSize(raw, len) <= |blob|
  {
    hide Cost;
    hide AllBits;
    hide Put;
    hide TableKraft;
    hide BitAt;
    StreamLength(HighPlane(raw), other);
    assert KraftCode(other, MAX_LEN);
  }

  lemma CodeLengthsAreBest(raw: seq<byte>, len: seq<nat>, maxLen: nat)
    requires |raw| % 2 == 0 && raw != [] && |len| == ALPHABET
    requires var freq := Frequencies(HighPlane(raw));
      && (forall s :: 0 <= s < ALPHABET ==> (0 < len[s] <==> 0 < freq[s]) && len[s] <= maxLen)
      && (maxLen > 0 ==> exists s :: 0 <= s < ALPHABET && len[s] == maxLen)
      && (maxLen == 0 <==> forall s :: 0 <= s < ALPHABET ==> freq[s] == 0)
      && (|UsedWeights(freq)| == 1 ==> maxLen == 1 && forall d :: 1 <= d ==> TableKraft(len, d) == Pow2(d - 1))
      && (|UsedWeights(freq)| >= 2 ==> Optimal(freq, len) && forall d :: maxLen <= d ==> TableKraft(len, d) == Pow2(d))
    ensures 0 < maxLen == Longest(len) && BestTable(raw, len)
    ensures maxLen <= MAX_LEN ==> PrefixCode(len)
    ensures forall i :: 0 <= i < |raw| / 2 ==> 0 < len[HighPlane(raw)[i]]
    ensures forall blob, other :: Encodes(blob, raw, other) ==> EncodedSize(raw, len) <= |blob|
  {
    hide Encodes;
    hide Frequencies;
    hide TableKraft;
    hide UsedWeights;
    hide Optimal;
    var freq := Frequencies(HighPlane(raw));
    OccurringSymbols(HighPlane(raw));
    NoneUsed(freq);
    LengthsAreShortest(raw, len);
    LengthsKraftCode(freq, len, maxLen);
    LengthsAreBest(raw, len, maxLen);
    if maxLen <= MAX_LEN {
      LengthsArePrefixCode(freq, len, maxLen);
    }
    forall blob, other | Encodes(blob, raw, other) ensures EncodedSize(raw, len) <= |blob| {
      NoBlobIsSmaller(raw, len, blob, other);
    }
  }

  /**
   * Compresses `raw` if that makes it smaller. `len` is the code-length table that was used or
   * given up on; no other table would have made the blob smaller.
   */
  method CompressF16(raw: seq<byte>) returns (r: Option<seq<byte>>, ghost len: seq<byte>)
    requires |raw| < U64 / 2
    ensures |raw| % 2 != 0 || raw == [] ==> r == None
    ensures |raw| % 2 == 0 && raw != [] ==>
      && |len| == ALPHABET
      && BestTable(raw, len)
      && (r.Some? <==> Longest(len) <= MAX_LEN && EncodedSize(raw, len) < |raw|)
    ensures r.Some? ==> |raw| % 2 == 0 && Encodes(r.value, raw, len) && |r.value| == EncodedSize(raw, len)
    ensures forall blob, other :: Encodes(blob, raw, other) && raw != [] ==>
      if r.Some? then |r.value| <= |blob| && |r.value| < |raw| else Longest(len) <= 24 ==> |raw| <= |blob|
  {
    hide Packed;
    hide AllBits;
    hide Cost;
    hide Frequencies;
    hide UsedWeights;
    hide Put;
    hide TableKraft;
    len := [];
    if |raw| % 2 != 0 || |raw| == 0 {
      return None, len;
    }
    var n := |raw| / 2;
    var lo, hi, freq := SplitPlanes(raw);
    var lens, maxLen := CodeLengths(freq);
    len := lens;
    CodeLengthsAreBest(raw, lens, maxLen);
    StreamLength(hi, lens);
    hide BestTable;
    if maxLen == 0 || maxLen > MAX_LEN {
      return None, len;
    }
    var symCode := AssignCanonicalCodes(lens, maxLen);
    var bits := PackHiStream(hi, lens, symCode);
    PackedLength(bits, AllBits(hi, lens));
    var total := BLOB_HEADER + |bits| + n;
    if total >= |raw| {
      return None, len;
    }
    var table: seq<byte> := lens;
    r := Some(Put(n, 8) + Put(|bits|, 8) + table + bits + lo);
  }
}
