/** UTF-8 (RFC 3629): code points to bytes and back, with a replacement character for bytes that
    start no sequence. */
module Utf8 {
  import opened Arith

  const REPLACEMENT: nat := 0xFFFD

  /** Code points that four bytes can carry. */
  const LIMIT: nat := 0x20_0000

  type Bytes = seq<byte>

  /** The bytes of a code point; a value past the limit loses its high bits. */
  function Encode(cpt: nat): (r: Bytes)
    ensures 1 <= |r| <= 4
  {
    if cpt <= 0x7F then [cpt]
    else if cpt <= 0x7FF then [0xC0 + cpt / 64 % 32, 0x80 + cpt % 64]
    else if cpt <= 0xFFFF then [0xE0 + cpt / 4096 % 16, 0x80 + cpt / 64 % 64, 0x80 + cpt % 64]
    else [0xF0 + cpt / 262144 % 8, 0x80 + cpt / 4096 % 64, 0x80 + cpt / 64 % 64, 0x80 + cpt % 64]
  }

  function EncodeAll(cpts: seq<nat>): Bytes {
    if cpts == [] then [] else Encode(cpts[0]) + EncodeAll(cpts[1..])
  }

  /** Continuation bytes a lead byte announces; -1 for a byte that leads nothing. */
  function Continuations(c0: byte): (r: int)
    ensures -1 <= r <= 3
  {
    if c0 < 0x80 then 0 else if c0 < 0xC0 then -1 else if c0 < 0xE0 then 1 else if c0 < 0xF0 then 2
    else if c0 < 0xF8 then 3 else -1
  }

  function Payload(c0: byte): nat {
    if c0 < 0x80 then c0 else if c0 < 0xE0 then c0 % 32 else if c0 < 0xF0 then c0 % 16 else c0 % 8
  }

  predicate IsContinuation(s: Bytes, k: nat) {
    k < |s| && 0x80 <= s[k] < 0xC0
  }

  /** The n bytes after the one at `i` are continuation bytes. */
  predicate Continued(s: Bytes, i: nat, n: nat)
    ensures Continued(s, i, n) && n > 0 ==> i + n < |s|
  {
    n == 0 || (Continued(s, i, n - 1) && IsContinuation(s, i + n))
  }

  /** The bytes at `i` are a lead byte followed by as many continuation bytes as it announces. */
  predicate StartsSequence(s: Bytes, i: nat)
    requires i < |s|
  {
    Continuations(s[i]) >= 0 && Continued(s, i, Continuations(s[i]))
  }

  /** The payload of a lead byte and n continuation bytes. */
  function Value(s: Bytes, i: nat, n: nat): nat
    requires i + n < |s|
  {
    if n == 0 then Payload(s[i]) else Value(s, i, n - 1) * 64 + s[i + n] % 64
  }

  /** The next code point and the number of bytes it takes. */
  function DecodeAt(s: Bytes, i: nat): (r: (nat, nat))
    requires i < |s|
    ensures 1 <= r.1 && i + r.1 <= |s|
  {
    var n := Continuations(s[i]);
    if StartsSequence(s, i) then
      (Value(s, i, n), n + 1)
    else (REPLACEMENT, 1)
  }

  function DecodeFrom(s: Bytes, i: nat): seq<nat>
    requires i <= |s|
    decreases |s| - i
  {
    if i == |s| then [] else [DecodeAt(s, i).0] + DecodeFrom(s, i + DecodeAt(s, i).1)
  }

  /** The code points of a byte string. */
  function Decode(s: Bytes): seq<nat> {
    DecodeFrom(s, 0)
  }

  // ---- the loop ---------------------------------------------------------------------------------

  method DecodeBytes(s: Bytes) returns (out: seq<nat>)
    ensures out == Decode(s)
  {
    out := [];
    var i := 0;
    while i < |s|
      invariant 0 <= i <= |s| && out + DecodeFrom(s, i) == Decode(s)
      decreases |s| - i
    {
      hide Value;
      hide DecodeAt;
      hide DecodeFrom;
      hide Payload;
      var count := Continuations(s[i]);
      DecodeStep(s, i, out);
      if count == 0 {
        out, i := out + [s[i]], i + 1;
        continue;
      }
      var valid := count > 0;
      var k := 1;
      while valid && k <= count
        invariant k >= 1 && (count > 0 ==> k <= count + 1)
        invariant valid ==> count > 0 && Continued(s, i, k - 1)
        invariant !valid ==> !StartsSequence(s, i)
      {
        valid := IsContinuation(s, i + k);
        if !valid {
          NotContinued(s, i, k, count);
        }
        k := k + 1;
      }
      if !valid {
        out, i := out + [REPLACEMENT], i + 1;
        continue;
      }
      assert Continued(s, i, count);
      var cp: nat := Payload(s[i]);
      LeadValue(s, i);
      for j := 1 to count + 1
        invariant cp == Value(s, i, j - 1)
      {
        cp := cp * 64 + s[i + j] % 64;
        NextValue(s, i, j);
      }
      out, i := out + [cp], i + count + 1;
    }
  }

  /** What the sequence at `i` appends. */
  lemma DecodeStep(s: Bytes, i: nat, out: seq<nat>)
    requires i < |s|
    ensures var n := Continuations(s[i]);
      out + DecodeFrom(s, i) == if StartsSequence(s, i) then out + [Value(s, i, n)] + DecodeFrom(s, i + n + 1)
                                else out + [REPLACEMENT] + DecodeFrom(s, i + 1)
    ensures Continuations(s[i]) == 0 ==> Value(s, i, 0) == s[i]
  {
  }

  lemma {:induction false} NotContinued(s: Bytes, i: nat, k: nat, n: nat)
    requires 0 < k <= n && !IsContinuation(s, i + k)
    ensures !Continued(s, i, n)
    decreases n
  {
    if k < n {
      NotContinued(s, i, k, n - 1);
    }
  }

  lemma LeadValue(s: Bytes, i: nat)
    requires i < |s|
    ensures Value(s, i, 0) == Payload(s[i])
  {
  }

  lemma NextValue(s: Bytes, i: nat, n: nat)
    requires n > 0 && i + n < |s|
    ensures Value(s, i, n) == Value(s, i, n - 1) * 64 + s[i + n] % 64
  {
  }

  // ---- encoding and decoding --------------------------------------------------------------------

  /** The bytes of a code point decode to it wherever they stand. */
  lemma DecodesEncoded(cpt: nat, s: Bytes, i: nat)
    requires cpt < LIMIT && i + |Encode(cpt)| <= |s| && s[i..i + |Encode(cpt)|] == Encode(cpt)
    ensures DecodeAt(s, i) == (cpt, |Encode(cpt)|)
  {
    var e := Encode(cpt);
    assert forall k: nat :: k < |e| ==> e[k] == s[i..i + |e|][k];
    assert s[i] == e[0];
    if |e| == 1 {
    } else if |e| == 2 {
      TwoBytes(cpt);
      hide Encode;
      assert s[i + 1] == e[1];
      DecodesPair(s, i);
    } else if |e| == 3 {
      ThreeBytes(cpt);
      hide Encode;
      assert s[i + 1] == e[1] && s[i + 2] == e[2];
      DecodesTriple(s, i);
    } else {
      FourBytes(cpt);
      hide Encode;
      assert s[i + 1] == e[1] && s[i + 2] == e[2] && s[i + 3] == e[3];
      DecodesFour(s, i);
    }
  }

  lemma DecodesPair(s: Bytes, i: nat)
    requires i < |s| && Continuations(s[i]) == 1 && IsContinuation(s, i + 1)
    ensures DecodeAt(s, i) == (Payload(s[i]) * 64 + s[i + 1] % 64, 2)
  {
    hide Payload;
    assert Continued(s, i, 1);
    LeadValue(s, i);
    NextValue(s, i, 1);
    hide Value;
  }

  lemma DecodesTriple(s: Bytes, i: nat)
    requires i < |s| && Continuations(s[i]) == 2 && IsContinuation(s, i + 1) && IsContinuation(s, i + 2)
    ensures DecodeAt(s, i) == ((Payload(s[i]) * 64 + s[i + 1] % 64) * 64 + s[i + 2] % 64, 3)
  {
    hide Payload;
    assert Continued(s, i, 0) && Continued(s, i, 1) && Continued(s, i, 2);
    LeadValue(s, i);
    NextValue(s, i, 1);
    NextValue(s, i, 2);
    hide Value;
  }

  lemma DecodesFour(s: Bytes, i: nat)
    requires i < |s| && Continuations(s[i]) == 3
    requires IsContinuation(s, i + 1) && IsContinuation(s, i + 2) && IsContinuation(s, i + 3)
    ensures DecodeAt(s, i)
         == (((Payload(s[i]) * 64 + s[i + 1] % 64) * 64 + s[i + 2] % 64) * 64 + s[i + 3] % 64, 4)
  {
    hide Payload;
    assert Continued(s, i, 0) && Continued(s, i, 1) && Continued(s, i, 2) && Continued(s, i, 3);
    LeadValue(s, i);
    NextValue(s, i, 1);
    NextValue(s, i, 2);
    NextValue(s, i, 3);
    hide Value;
  }

  // A complete sequence, overlong or not, is decoded to its payload bits.

  lemma TwoAreDecoded(s: Bytes, i: nat, a: nat, b: nat)
    requires i + 1 < |s| && a < 32 && b < 64 && s[i] == 0xC0 + a && s[i + 1] == 0x80 + b
    ensures DecodeFrom(s, i) == [a * 64 + b] + DecodeFrom(s, i + 2)
  {
    hide DecodeAt;
    DecodesPair(s, i);
    LowBits(a);
    LowBits(b);
  }

  lemma ThreeAreDecoded(s: Bytes, i: nat, a: nat, b: nat, c: nat)
    requires i + 2 < |s| && a < 16 && b < 64 && c < 64 && s[i] == 0xE0 + a && s[i + 1] == 0x80 + b && s[i + 2] == 0x80 + c
    ensures DecodeFrom(s, i) == [(a * 64 + b) * 64 + c] + DecodeFrom(s, i + 3)
  {
    hide DecodeAt;
    DecodesTriple(s, i);
    LowBits(a);
    LowBits(b);
    LowBits(c);
  }

  lemma FourAreDecoded(s: Bytes, i: nat, a: nat, b: nat, c: nat, d: nat)
    requires i + 3 < |s| && a < 8 && b < 64 && c < 64 && d < 64
    requires s[i] == 0xF0 + a && s[i + 1] == 0x80 + b && s[i + 2] == 0x80 + c && s[i + 3] == 0x80 + d
    ensures DecodeFrom(s, i) == [((a * 64 + b) * 64 + c) * 64 + d] + DecodeFrom(s, i + 4)
  {
    hide DecodeAt;
    DecodesFour(s, i);
    LowBits(a);
    LowBits(b);
    LowBits(c);
    LowBits(d);
  }

  /** Anywhere else a replacement character stands for one byte. */
  lemma MalformedIsReplaced(s: Bytes, i: nat)
    requires i < |s|
    requires || 0x80 <= s[i] < 0xC0 || 0xF8 <= s[i]
             || (0xC0 <= s[i] && !(i + 1 < |s| && 0x80 <= s[i + 1] < 0xC0))
             || (0xE0 <= s[i] && !(i + 2 < |s| && 0x80 <= s[i + 2] < 0xC0))
             || (0xF0 <= s[i] && !(i + 3 < |s| && 0x80 <= s[i + 3] < 0xC0))
    ensures DecodeFrom(s, i) == [0xFFFD] + DecodeFrom(s, i + 1)
  {
    hide Value;
    if 0xC0 <= s[i] < 0xF8 {
      var n := Continuations(s[i]);
      var k: nat :| 0 < k <= n && !IsContinuation(s, i + k);
      NotContinued(s, i, k, n);
    }
  }

  lemma TwoBytes(cpt: nat)
    requires |Encode(cpt)| == 2
    ensures var e := Encode(cpt);
      Continuations(e[0]) == 1 && 0x80 <= e[1] < 0xC0 && cpt == Payload(e[0]) * 64 + e[1] % 64
  {
    LowBits(cpt / 64 % 32);
    LowBits(cpt % 64);
  }

  lemma ThreeBytes(cpt: nat)
    requires |Encode(cpt)| == 3
    ensures var e := Encode(cpt);
      && Continuations(e[0]) == 2 && 0x80 <= e[1] < 0xC0 && 0x80 <= e[2] < 0xC0
      && cpt == (Payload(e[0]) * 64 + e[1] % 64) * 64 + e[2] % 64
  {
    LowBits(cpt / 4096 % 16);
    LowBits(cpt / 64 % 64);
    LowBits(cpt % 64);
    assert cpt / 4096 == cpt / 64 / 64;
  }

  lemma FourBytes(cpt: nat)
    requires |Encode(cpt)| == 4 && cpt < LIMIT
    ensures var e := Encode(cpt);
      && Continuations(e[0]) == 3 && 0x80 <= e[1] < 0xC0 && 0x80 <= e[2] < 0xC0 && 0x80 <= e[3] < 0xC0
      && cpt == ((Payload(e[0]) * 64 + e[1] % 64) * 64 + e[2] % 64) * 64 + e[3] % 64
  {
    LowBits(cpt / 262144 % 8);
    LowBits(cpt / 4096 % 64);
    LowBits(cpt / 64 % 64);
    LowBits(cpt % 64);
    assert cpt / 4096 == cpt / 64 / 64;
    assert cpt / 262144 == cpt / 4096 / 64;
  }

  /** The payload bits of a marked byte. */
  lemma LowBits(v: nat)
    ensures v < 8 ==> (0xF0 + v) % 8 == v
    ensures v < 16 ==> (0xE0 + v) % 16 == v
    ensures v < 32 ==> (0xC0 + v) % 32 == v
    ensures v < 64 ==> (0x80 + v) % 64 == v
  {
  }

  predicate Encodable(cpts: seq<nat>) {
    forall k :: 0 <= k < |cpts| ==> cpts[k] < LIMIT
  }

  /** Decoding passes over encoded code points and goes on with what follows them. */
  lemma {:induction false} DecodesAllEncoded(cpts: seq<nat>, s: Bytes, i: nat)
    requires Encodable(cpts) && i + |EncodeAll(cpts)| <= |s| && s[i..i + |EncodeAll(cpts)|] == EncodeAll(cpts)
    ensures DecodeFrom(s, i) == cpts + DecodeFrom(s, i + |EncodeAll(cpts)|)
    decreases |cpts|
  {
    hide Encode;
    hide DecodeAt;
    if cpts != [] {
      var e, rest := Encode(cpts[0]), EncodeAll(cpts[1..]);
      assert EncodeAll(cpts) == e + rest;
      assert s[i..i + |e|] == s[i..i + |e + rest|][..|e|] == e;
      assert s[i + |e|..i + |e| + |rest|] == s[i..i + |e + rest|][|e|..] == rest;
      DecodesEncoded(cpts[0], s, i);
      DecodesAllEncoded(cpts[1..], s, i + |e|);
      assert cpts == [cpts[0]] + cpts[1..];
    }
  }

  lemma DecodeAfterEncoded(cpts: seq<nat>, rest: Bytes)
    requires Encodable(cpts)
    ensures Decode(EncodeAll(cpts) + rest) == cpts + Decode(rest)
  {
    var s, n := EncodeAll(cpts) + rest, |EncodeAll(cpts)|;
    DecodesAllEncoded(cpts, s, 0);
    assert s[n..] == rest;
    DecodeShifts(s, n, rest, 0);
  }

  lemma {:induction false} DecodeShifts(s: Bytes, n: nat, rest: Bytes, i: nat)
    requires n <= |s| && s[n..] == rest && i <= |rest|
    ensures DecodeFrom(s, n + i) == DecodeFrom(rest, i)
    decreases |rest| - i
  {
    hide DecodeAt;
    if i < |rest| {
      DecodeAtShifts(s, n, rest, i);
      DecodeShifts(s, n, rest, i + DecodeAt(rest, i).1);
    }
  }

  lemma DecodeAtShifts(s: Bytes, n: nat, rest: Bytes, i: nat)
    requires n <= |s| && s[n..] == rest && i < |rest|
    ensures DecodeAt(s, n + i) == DecodeAt(rest, i)
  {
    hide Value;
    hide Continued;
    assert s[n + i] == rest[i];
    if Continuations(rest[i]) >= 0 {
      ContinuedShifts(s, n, rest, i, Continuations(rest[i]));
      if StartsSequence(rest, i) {
        ValueShifts(s, n, rest, i, Continuations(rest[i]));
      }
    }
  }

  lemma {:induction false} ContinuedShifts(s: Bytes, n: nat, rest: Bytes, i: nat, m: nat)
    requires n <= |s| && s[n..] == rest
    ensures Continued(s, n + i, m) == Continued(rest, i, m)
  {
    if m > 0 {
      ContinuedShifts(s, n, rest, i, m - 1);
      if i + m < |rest| {
        assert s[n + i + m] == rest[i + m];
      }
    }
  }

  lemma {:induction false} ValueShifts(s: Bytes, n: nat, rest: Bytes, i: nat, m: nat)
    requires n <= |s| && s[n..] == rest && i + m < |rest|
    ensures Value(s, n + i, m) == Value(rest, i, m)
  {
    if m > 0 {
      ValueShifts(s, n, rest, i, m - 1);
    }
  }

  /** What decoding yields can be encoded again. */
  lemma {:induction false} DecodedIsEncodable(s: Bytes, i: nat)
    requires i <= |s|
    ensures Encodable(DecodeFrom(s, i))
    decreases |s| - i
  {
    if i < |s| {
      DecodedInRange(s, i);
      DecodedIsEncodable(s, i + DecodeAt(s, i).1);
    }
  }

  lemma DecodedInRange(s: Bytes, i: nat)
    requires i < |s|
    ensures DecodeAt(s, i).0 < LIMIT
  {
    if StartsSequence(s, i) {
      var n := Continuations(s[i]);
      if n >= 1 {
        assert Value(s, i, 1) == Value(s, i, 0) * 64 + s[i + 1] % 64;
      }
      if n >= 2 {
        assert Value(s, i, 2) == Value(s, i, 1) * 64 + s[i + 2] % 64;
      }
      if n >= 3 {
        assert Value(s, i, 3) == Value(s, i, 2) * 64 + s[i + 3] % 64;
      }
    }
  }

  lemma {:induction false} EncodeAllSplits(a: seq<nat>, b: seq<nat>)
    ensures EncodeAll(a + b) == EncodeAll(a) + EncodeAll(b)
  {
    hide Encode;
    if a == [] {
      assert a + b == b;
    } else {
      assert (a + b)[1..] == a[1..] + b && (a + b)[0] == a[0];
      EncodeAllSplits(a[1..], b);
      var x, y, z := Encode(a[0]), EncodeAll(a[1..]), EncodeAll(b);
      assert x + (y + z) == x + y + z;
    }
  }

  lemma EncodeAllOne(c: nat)
    ensures EncodeAll([c]) == Encode(c)
  {
    hide Encode;
    assert [c][1..] == [];
    assert EncodeAll([c]) == Encode(c) + EncodeAll([c][1..]) == Encode(c) + [];
  }

  predicate Scalar(cpt: nat) {
    cpt <= 0x10_FFFF && !(0xD800 <= cpt <= 0xDFFF)
  }

  /** Section 3 of RFC 3629: the text is the encoding of some sequence of characters. */
  ghost predicate Valid(s: Bytes) {
    exists cpts: seq<nat> :: IsEncodingOf(s, cpts)
  }

  ghost predicate IsEncodingOf(s: Bytes, cpts: seq<nat>) {
    (forall k :: 0 <= k < |cpts| ==> Scalar(cpts[k])) && s == EncodeAll(cpts)
  }

  /** Encoding again what was decoded gives back exactly the texts that are encodings, among them
      all valid ones. */
  lemma ReencodingRestores(s: Bytes)
    ensures EncodeAll(Decode(s)) == s <==> exists cpts: seq<nat> :: Encodable(cpts) && s == EncodeAll(cpts)
    ensures Valid(s) ==> EncodeAll(Decode(s)) == s
  {
    hide EncodeAll;
    hide DecodeFrom;
    DecodedIsEncodable(s, 0);
    if cpts: seq<nat> :| Encodable(cpts) && s == EncodeAll(cpts) {
      DecodeEncoded(cpts);
    }
    if Valid(s) {
      var cpts :| IsEncodingOf(s, cpts);
      DecodeEncoded(cpts);
    }
  }

  lemma DecodeEncoded(cpts: seq<nat>)
    requires Encodable(cpts)
    ensures Decode(EncodeAll(cpts)) == cpts
  {
    var s := EncodeAll(cpts);
    assert s + [] == s;
    DecodeAfterEncoded(cpts, []);
    assert Decode([]) == [];
  }
}
